/** From statement text to tokens (src/sql/lexer.cpp). */
module Lexer {
  import opened Wrappers
  import opened Seqs
  import opened Bytes
  import opened Sql
  import opened Lexicon

  // ----- characters

  predicate IsSpace(b: byte) {
    b == 32 || b == 9 || b == 10 || b == 13
  }

  predicate IsDigit(b: byte) {
    48 <= b <= 57
  }

  predicate IsIdentStart(b: byte) {
    65 <= b <= 90 || 97 <= b <= 122 || b == 95
  }

  predicate IsIdentCont(b: byte) {
    IsIdentStart(b) || IsDigit(b)
  }

  function Upper(b: byte): byte {
    if 97 <= b <= 122 then b - 32 else b
  }

  function ToUpper(w: Text): (r: Text)
    ensures |r| == |w| && forall i :: 0 <= i < |w| ==> r[i] == Upper(w[i])
  {
    seq(|w|, i requires 0 <= i < |w| => Upper(w[i]))
  }

  const QUOTE: byte := 39
  const MINUS: byte := 45
  const BLANK: byte := 32

  // ----- words

  /** How many bytes at the head satisfy `p`. */
  function Span(p: byte -> bool, d: seq<byte>): (n: nat)
    ensures n <= |d|
  {
    if d == [] || !p(d[0]) then 0 else 1 + Span(p, d[1..])
  }

  lemma {:induction false} SpanStops(p: byte -> bool, w: seq<byte>, rest: seq<byte>)
    requires (forall i :: 0 <= i < |w| ==> p(w[i])) && (rest == [] || !p(rest[0]))
    ensures Span(p, w + rest) == |w|
  {
    if w == [] {
      assert w + rest == rest;
    } else {
      SpanStops(p, w[1..], rest);
      assert (w + rest)[0] == w[0] && (w + rest)[1..] == w[1..] + rest;
    }
  }

  /** The inner loops over words and digits. */
  method SpanLoop(p: byte -> bool, d: seq<byte>, start: nat) returns (end: nat)
    requires start <= |d|
    ensures end == start + Span(p, d[start..])
  {
    end := start;
    while end < |d| && p(d[end])
      invariant start <= end <= |d|
      invariant end + Span(p, d[end..]) == start + Span(p, d[start..])
    {
      assert d[end..][1..] == d[end + 1..];
      end := end + 1;
    }
  }

  /** Every keyword by its spelling in capital letters. */
  function KeywordTable(): seq<(Text, Keyword)> {
    [(Capitals("CREATE"), KwCreate), (Capitals("TABLE"), KwTable), (Capitals("INDEX"), KwIndex),
     (Capitals("ON"), KwOn), (Capitals("INTEGER"), KwInteger), (Capitals("TEXT"), KwText),
     (Capitals("PRIMARY"), KwPrimary), (Capitals("KEY"), KwKey), (Capitals("INSERT"), KwInsert),
     (Capitals("INTO"), KwInto), (Capitals("VALUES"), KwValues), (Capitals("SELECT"), KwSelect),
     (Capitals("FROM"), KwFrom), (Capitals("JOIN"), KwJoin), (Capitals("WHERE"), KwWhere),
     (Capitals("AND"), KwAnd), (Capitals("UPDATE"), KwUpdate), (Capitals("SET"), KwSet),
     (Capitals("DELETE"), KwDelete), (Capitals("BEGIN"), KwBegin), (Capitals("COMMIT"), KwCommit),
     (Capitals("ROLLBACK"), KwRollback)]
  }

  function Lookup(table: seq<(Text, Keyword)>, w: Text): (r: Option<Keyword>)
    ensures r.Some? ==> (w, r.value) in table
    ensures r.None? ==> forall row :: row in table ==> row.0 != w
  {
    if table == [] then None else if table[0].0 == w then Some(table[0].1) else Lookup(table[1..], w)
  }

  function KeywordOf(w: Text): Option<Keyword> {
    Lookup(KeywordTable(), ToUpper(w))
  }

  function WordToken(w: Text): Token {
    match KeywordOf(w)
    case Some(k) => Kw(k)
    case None => Ident(w)
  }

  // ----- numbers

  function Number(ds: seq<byte>): int {
    if ds == [] then 0 else 10 * Number(ds[..|ds| - 1]) + (ds[|ds| - 1] as int - 48)
  }

  datatype Lexeme = Lexeme(token: Token, rest: seq<byte>) | Bad

  function IntToken(negative: bool, ds: seq<byte>, rest: seq<byte>): Lexeme {
    var v := if negative then -Number(ds) else Number(ds);
    if -0x8000_0000_0000_0000 <= v < 0x8000_0000_0000_0000 then Lexeme(IntTok(v), rest) else Bad
  }

  // ----- strings

  /** The decoded value up to the closing quote, and what follows it. */
  function StringEnd(d: seq<byte>): (r: Option<(Text, seq<byte>)>)
    ensures r.Some? ==> |r.value.1| < |d|
    decreases |d|
  {
    if d == [] then None
    else if d[0] == QUOTE && !(|d| > 1 && d[1] == QUOTE) then Some(([], d[1..]))
    else
      var next := if d[0] == QUOTE then d[2..] else d[1..];
      match StringEnd(next)
      case None => None
      case Some((v, rest)) => Some(([d[0]] + v, rest))
  }

  /** Doubling quotes and undoing it are inverse. */
  lemma {:induction false} StringRoundTrip(v: Text, rest: seq<byte>)
    requires rest == [] || rest[0] != QUOTE
    ensures StringEnd(Escaped(v) + ([QUOTE] + rest)) == Some((v, rest))
  {
    var tail := [QUOTE] + rest;
    if v == [] {
      assert Escaped(v) + tail == tail && tail[1..] == rest;
    } else {
      StringRoundTrip(v[1..], rest);
      var head := if v[0] == QUOTE then [QUOTE, QUOTE] else [v[0]];
      ConcatAssoc(head, Escaped(v[1..]), tail);
      StringStep(head, v[0], Escaped(v[1..]) + tail);
      assert v == [v[0]] + v[1..];
    }
  }

  lemma StringStep(head: seq<byte>, b: byte, more: seq<byte>)
    requires head == if b == QUOTE then [QUOTE, QUOTE] else [b]
    ensures StringEnd(head + more) ==
            match StringEnd(more) { case None => None case Some((v, rest)) => Some(([b] + v, rest)) }
  {
    assert (head + more)[0] == b && (head + more)[|head|..] == more;
    if b == QUOTE {
      assert (head + more)[1] == QUOTE;
    }
  }

  // ----- one token

  function LexSymbol(d: seq<byte>): Lexeme
    requires d != []
  {
    var c, eq := d[0], |d| > 1 && d[1] == 61;
    if c == 40 then Lexeme(Sym(LParen), d[1..])
    else if c == 41 then Lexeme(Sym(RParen), d[1..])
    else if c == 44 then Lexeme(Sym(Comma), d[1..])
    else if c == 46 then Lexeme(Sym(Dot), d[1..])
    else if c == 42 then Lexeme(Sym(Star), d[1..])
    else if c == 59 then Lexeme(Sym(Semicolon), d[1..])
    else if c == 61 then Lexeme(Sym(EqSign), d[1..])
    else if c == 33 then (if eq then Lexeme(Sym(NeqSign), d[2..]) else Bad)
    else if c == 60 then (if eq then Lexeme(Sym(LeSign), d[2..]) else Lexeme(Sym(LtSign), d[1..]))
    else if c == 62 then (if eq then Lexeme(Sym(GeSign), d[2..]) else Lexeme(Sym(GtSign), d[1..]))
    else Bad
  }

  function LexWord(d: seq<byte>): (r: Lexeme)
    requires d != []
    ensures r.Lexeme? && |r.rest| < |d|
  {
    var n := 1 + Span(IsIdentCont, d[1..]);
    Lexeme(WordToken(d[..n]), d[n..])
  }

  function LexNumber(d: seq<byte>): (r: Lexeme)
    requires d != [] && (IsDigit(d[0]) || (d[0] == MINUS && |d| > 1 && IsDigit(d[1])))
    ensures r.Lexeme? ==> |r.rest| < |d|
  {
    var start := if d[0] == MINUS then 1 else 0;
    var n := start + Span(IsDigit, d[start..]);
    IntToken(start == 1, d[start..n], d[n..])
  }

  /** The token at the head of `d`, which does not start with a blank. */
  function LexToken(d: seq<byte>): (r: Lexeme)
    requires d != []
    ensures r.Lexeme? ==> |r.rest| < |d|
  {
    if IsIdentStart(d[0]) then LexWord(d)
    else if IsDigit(d[0]) || (d[0] == MINUS && |d| > 1 && IsDigit(d[1])) then LexNumber(d)
    else if d[0] == QUOTE then
      match StringEnd(d[1..])
      case None => Bad
      case Some((v, rest)) => Lexeme(StrTok(v), rest)
    else LexSymbol(d)
  }

  /** All tokens, or nothing if some token is bad. */
  function Lexed(d: seq<byte>): Option<seq<Token>>
    decreases |d|
  {
    if d == [] then Some([])
    else if IsSpace(d[0]) then Lexed(d[1..])
    else
      match LexToken(d)
      case Bad => None
      case Lexeme(t, rest) => Prefixed([t], Lexed(rest))
  }

  function Prefixed(ts: seq<Token>, r: Option<seq<Token>>): Option<seq<Token>> {
    match r
    case None => None
    case Some(more) => Some(ts + more)
  }

  // ----- writing tokens

  function SpelledInt(v: int64): seq<byte> {
    (if v < 0 then [MINUS] else []) + Digits(Magnitude(v))
  }

  function Spelled(t: Token): seq<byte> {
    match t
    case Kw(k) => Spelling(k)
    case Ident(w) => w
    case IntTok(v) => SpelledInt(v)
    case StrTok(v) => [QUOTE] + Escaped(v) + [QUOTE]
    case Sym(s) => SymbolText(s)
  }

  ghost predicate TokenOk(t: Token) {
    t.Ident? ==> IsIdentifier(t.text)
  }

  /** Each token followed by one blank. */
  function Rendered(ts: seq<Token>): seq<byte> {
    if ts == [] then [] else Spelled(ts[0]) + ([BLANK] + Rendered(ts[1..]))
  }

  // ----- keywords

  /** The keywords in the order of the table. */
  function Keywords(): seq<Keyword> {
    [KwCreate, KwTable, KwIndex, KwOn, KwInteger, KwText, KwPrimary, KwKey, KwInsert, KwInto, KwValues,
     KwSelect, KwFrom, KwJoin, KwWhere, KwAnd, KwUpdate, KwSet, KwDelete, KwBegin, KwCommit, KwRollback]
  }

  lemma TableRow(i: nat)
    requires i < 22
    ensures |KeywordTable()| == |Keywords()| == 22 && KeywordTable()[i] == (Spelling(Keywords()[i]), Keywords()[i])
  {
    if i < 11 { TableRowLow(i); } else { TableRowHigh(i); }
  }

  lemma TableRowLow(i: nat)
    requires i < 11
    ensures KeywordTable()[i] == (Spelling(Keywords()[i]), Keywords()[i])
  {
  }

  lemma TableRowHigh(i: nat)
    requires 11 <= i < 22
    ensures KeywordTable()[i] == (Spelling(Keywords()[i]), Keywords()[i])
  {
  }

  lemma AllListed(k: Keyword)
    ensures k in Keywords()
  {
    var ks := Keywords();
    match k
    case KwCreate => assert ks[0] == k;
    case KwTable => assert ks[1] == k;
    case KwIndex => assert ks[2] == k;
    case KwOn => assert ks[3] == k;
    case KwInteger => assert ks[4] == k;
    case KwText => assert ks[5] == k;
    case KwPrimary => assert ks[6] == k;
    case KwKey => assert ks[7] == k;
    case KwInsert => assert ks[8] == k;
    case KwInto => assert ks[9] == k;
    case KwValues => assert ks[10] == k;
    case KwSelect => assert ks[11] == k;
    case KwFrom => assert ks[12] == k;
    case KwJoin => assert ks[13] == k;
    case KwWhere => assert ks[14] == k;
    case KwAnd => assert ks[15] == k;
    case KwUpdate => assert ks[16] == k;
    case KwSet => assert ks[17] == k;
    case KwDelete => assert ks[18] == k;
    case KwBegin => assert ks[19] == k;
    case KwCommit => assert ks[20] == k;
    case KwRollback => assert ks[21] == k;
  }

  /** Which keyword a spelling is of, told by its length and first two letters. */
  ghost function Classified(w: Text): Keyword {
    if |w| < 2 then KwOn
    else if |w| == 2 then KwOn
    else if |w| == 3 then (if w[0] == 75 then KwKey else if w[0] == 65 then KwAnd else KwSet)
    else if |w| == 4 then
        (if w[0] == 84 then KwText else if w[0] == 73 then KwInto else if w[0] == 70 then KwFrom else KwJoin)
    else if |w| == 5 then
        (if w[0] == 84 then KwTable else if w[0] == 73 then KwIndex else if w[0] == 87 then KwWhere else KwBegin)
    else if |w| == 6 then
      (if w[0] == 67 then (if w[1] == 82 then KwCreate else KwCommit) else if w[0] == 73 then KwInsert
       else if w[0] == 86 then KwValues else if w[0] == 83 then KwSelect else if w[0] == 85 then KwUpdate else KwDelete)
    else if |w| == 7 then (if w[0] == 73 then KwInteger else KwPrimary)
    else KwRollback
  }

  lemma ClassifiedSpelling(k: Keyword)
    ensures Classified(Spelling(k)) == k
  {
  }

  lemma SpellingsDiffer(a: Keyword, b: Keyword)
    requires Spelling(a) == Spelling(b)
    ensures a == b
  {
    ClassifiedSpelling(a);
    ClassifiedSpelling(b);
  }

  /** The table has every keyword under its spelling, and nothing else. */
  ghost predicate Complete(table: seq<(Text, Keyword)>) {
    forall w, k :: (w, k) in table <==> w == Spelling(k)
  }

  lemma TableComplete()
    ensures Complete(KeywordTable())
  {
    TableRow(0);
    forall w, k ensures (w, k) in KeywordTable() <==> w == Spelling(k) {
      RowIff(w, k);
    }
  }

  lemma RowIff(w: Text, k: Keyword)
    ensures (w, k) in KeywordTable() <==> w == Spelling(k)
  {
    AllListed(k);
    var j :| 0 <= j < |Keywords()| && Keywords()[j] == k;
    TableRow(j);
    if i :| 0 <= i < |KeywordTable()| && KeywordTable()[i] == (w, k) {
      TableRow(i);
    }
  }

  lemma LookupIff(table: seq<(Text, Keyword)>, w: Text, k: Keyword)
    requires Complete(table)
    ensures Lookup(table, w) == Some(k) <==> w == Spelling(k)
  {
    var r := Lookup(table, w);
    if w == Spelling(k) {
      assert (w, k) in table;
      SpellingsDiffer(r.value, k);
    }
  }

  /** A word is a keyword exactly when its letters, capital or small, are those of the keyword. */
  lemma KeywordIff(w: Text, k: Keyword)
    ensures KeywordOf(w) == Some(k) <==> SameLetters(w, Spelling(k))
  {
    TableComplete();
    LookupIff(KeywordTable(), ToUpper(w), k);
    UpperIff(w, Spelling(k));
  }

  lemma UpperIff(w: Text, capitals: Text)
    requires forall i :: 0 <= i < |capitals| ==> 65 <= capitals[i] <= 90
    ensures ToUpper(w) == capitals <==> SameLetters(w, capitals)
  {
    var up := ToUpper(w);
    if SameLetters(w, capitals) {
      assert forall i :: 0 <= i < |w| ==> up[i] == capitals[i];
    }
  }

  lemma WordTokenSpelled(w: Text)
    requires IsWord(w)
    ensures Spells(w, WordToken(w)) && (WordToken(w).Kw? || WordToken(w).Ident?)
  {
    match KeywordOf(w)
    case Some(k) => KeywordIff(w, k);
    case None =>
      forall k ensures !SameLetters(w, Spelling(k)) {
        KeywordIff(w, k);
      }
  }

  lemma LettersAreWord(w: Text, capitals: Text)
    requires SameLetters(w, capitals) && capitals != [] && forall i :: 0 <= i < |capitals| ==> 65 <= capitals[i] <= 90
    ensures IsWord(w)
  {
  }

  lemma KeywordIsWord(w: Text, k: Keyword)
    requires SameLetters(w, Spelling(k))
    ensures IsWord(w) && WordToken(w) == Kw(k)
  {
    LettersAreWord(w, Spelling(k));
    KeywordIff(w, k);
  }

  lemma IdentifierIsWord(w: Text)
    requires IsIdentifier(w)
    ensures WordToken(w) == Ident(w)
  {
    if k :| KeywordOf(w) == Some(k) {
      KeywordIff(w, k);
    }
  }

  // ----- a spelling of a token is read as the token

  lemma WordReads(w: Text, rest: seq<byte>)
    requires IsWord(w) && (rest == [] || !WordByte(rest[0]))
    ensures LexToken(w + rest) == Lexeme(WordToken(w), rest)
  {
    SpanStops(IsIdentCont, w[1..], rest);
    assert (w + rest)[0] == w[0] && (w + rest)[1..] == w[1..] + rest;
    ConcatSlices(w, rest);
  }

  lemma {:induction false} NumberOfZeros(zeros: seq<byte>)
    requires Zeros(zeros)
    ensures Number(zeros) == 0
  {
    if zeros != [] {
      NumberOfZeros(zeros[..|zeros| - 1]);
    }
  }

  ghost predicate AllDigits(ds: seq<byte>) {
    ds != [] && forall i :: 0 <= i < |ds| ==> IsDigit(ds[i])
  }

  lemma {:induction false} NumberOfDigits(zeros: seq<byte>, n: nat)
    requires Zeros(zeros)
    ensures Number(zeros + Digits(n)) == n && AllDigits(zeros + Digits(n))
  {
    var ds := zeros + Digits(n);
    if n < 10 {
      NumberOfZeros(zeros);
      assert ds[..|ds| - 1] == zeros;
    } else {
      NumberOfDigits(zeros, n / 10);
      assert ds[..|ds| - 1] == zeros + Digits(n / 10);
      assert ds == zeros + Digits(n / 10) + [(48 + n % 10) as byte];
    }
  }

  lemma IntReads(v: int64, sign: seq<byte>, zeros: seq<byte>, w: seq<byte>, rest: seq<byte>)
    requires IsIntText(v, sign, zeros, w) && (rest == [] || !IsDigit(rest[0]))
    ensures LexToken(w + rest) == Lexeme(IntTok(v), rest)
  {
    NumberOfDigits(zeros, Magnitude(v));
    DigitsRead(sign, zeros + Digits(Magnitude(v)), rest);
    IntTokenIs(v, sign != [], zeros + Digits(Magnitude(v)), rest);
  }

  lemma IntTokenIs(v: int64, negative: bool, ds: seq<byte>, rest: seq<byte>)
    requires Number(ds) == Magnitude(v) && (v < 0 ==> negative) && (v > 0 ==> !negative)
    ensures IntToken(negative, ds, rest) == Lexeme(IntTok(v), rest)
  {
  }

  lemma DigitsRead(sign: seq<byte>, ds: seq<byte>, rest: seq<byte>)
    requires (sign == [] || sign == [MINUS]) && AllDigits(ds) && (rest == [] || !IsDigit(rest[0]))
    ensures LexToken(sign + ds + rest) == IntToken(sign != [], ds, rest)
  {
    var d, m := sign + ds + rest, |sign|;
    assert d[m..] == ds + rest && d[m] == ds[0];
    assert sign != [] ==> d[0] == MINUS;
    NumberRead(d, m, ds, rest);
  }

  lemma NumberRead(d: seq<byte>, m: nat, ds: seq<byte>, rest: seq<byte>)
    requires m < |d| && d[m..] == ds + rest && AllDigits(ds) && (rest == [] || !IsDigit(rest[0]))
    requires d[m] == ds[0] && m == if d[0] == MINUS then 1 else 0
    ensures LexNumber(d) == IntToken(m == 1, ds, rest)
  {
    SpanStops(IsDigit, ds, rest);
    ConcatSlices(ds, rest);
    assert d[m..m + |ds|] == d[m..][..|ds|] && d[m + |ds|..] == d[m..][|ds|..];
  }

  lemma SymbolReads(s: Symbol, rest: seq<byte>)
    requires EndsBefore(Sym(s), rest)
    ensures LexToken(SymbolText(s) + rest) == Lexeme(Sym(s), rest)
  {
    var w := SymbolText(s);
    var d := w + rest;
    assert d[|w|..] == rest && d[0] == w[0];
    assert |w| == 2 ==> d[1] == w[1];
    assert |w| == 1 && rest != [] ==> d[1] == rest[0];
  }

  lemma QuotedReads(v: Text, rest: seq<byte>)
    requires rest == [] || rest[0] != QUOTE
    ensures LexToken([QUOTE] + Escaped(v) + [QUOTE] + rest) == Lexeme(StrTok(v), rest)
  {
    var inner := Escaped(v) + ([QUOTE] + rest);
    assert [QUOTE] + Escaped(v) + [QUOTE] + rest == [QUOTE] + inner;
    assert ([QUOTE] + inner)[1..] == inner;
    StringRoundTrip(v, rest);
  }

  /** Any spelling of a token that ends before `rest` is read as the token, and no more. */
  lemma TokenReads(w: seq<byte>, t: Token, rest: seq<byte>)
    requires Spells(w, t) && EndsBefore(t, rest)
    ensures LexToken(w + rest) == Lexeme(t, rest)
  {
    match t
    case Kw(k) =>
      KeywordIsWord(w, k);
      WordReads(w, rest);
    case Ident(x) =>
      IdentifierIsWord(w);
      WordReads(w, rest);
    case IntTok(v) =>
      var sign, zeros :| IsIntText(v, sign, zeros, w);
      IntReads(v, sign, zeros, w, rest);
    case StrTok(v) => QuotedReads(v, rest);
    case Sym(s) => SymbolReads(s, rest);
  }

  lemma IntNotBlank(v: int64, sign: seq<byte>, zeros: seq<byte>, w: seq<byte>)
    requires IsIntText(v, sign, zeros, w)
    ensures w != [] && !IsSpace(w[0])
  {
    NumberOfDigits(zeros, Magnitude(v));
    var ds := zeros + Digits(Magnitude(v));
    assert w[0] == if sign == [] then ds[0] else MINUS;
  }

  /** No token starts with a blank. */
  lemma NotBlank(w: seq<byte>, t: Token)
    requires Spells(w, t)
    ensures w != [] && !IsSpace(w[0])
  {
    match t
    case Kw(k) => LettersAreWord(w, Spelling(k));
    case Ident(x) =>
    case IntTok(v) =>
      var sign, zeros :| IsIntText(v, sign, zeros, w);
      IntNotBlank(v, sign, zeros, w);
    case StrTok(v) =>
    case Sym(s) =>
  }

  // ----- a token that was read is spelled by what was read

  lemma {:induction false} SpanIs(p: byte -> bool, d: seq<byte>)
    ensures forall i :: 0 <= i < Span(p, d) ==> p(d[i])
    ensures Span(p, d) < |d| ==> !p(d[Span(p, d)])
  {
    if d != [] && p(d[0]) {
      SpanIs(p, d[1..]);
    }
  }

  /** The token was read from `w`, and ends there. */
  ghost predicate ReadFrom(w: seq<byte>, d: seq<byte>, l: Lexeme) {
    l.Lexeme? && d == w + l.rest && Spells(w, l.token) && EndsBefore(l.token, l.rest)
  }

  /** The word at the head of `d`. */
  lemma WordAhead(d: seq<byte>)
    requires d != [] && IsIdentStart(d[0])
    ensures var n := 1 + Span(IsIdentCont, d[1..]);
            n <= |d| && IsWord(d[..n]) && (n == |d| || !WordByte(d[n]))
  {
    SpanIs(IsIdentCont, d[1..]);
    var n := 1 + Span(IsIdentCont, d[1..]);
    forall i | 0 <= i < n ensures WordByte(d[..n][i]) {
      if i > 0 { assert d[1..][i - 1] == d[i]; }
    }
    assert n < |d| ==> d[n] == d[1..][n - 1];
  }

  lemma ReadAs(d: seq<byte>, n: nat, t: Token)
    requires n <= |d| && Spells(d[..n], t) && EndsBefore(t, d[n..])
    ensures ReadFrom(d[..n], d, Lexeme(t, d[n..]))
  {
    assert d == d[..n] + d[n..];
  }

  lemma WordSpelled(d: seq<byte>)
    requires d != [] && IsIdentStart(d[0])
    ensures ReadFrom(d[..1 + Span(IsIdentCont, d[1..])], d, LexWord(d))
  {
    WordAhead(d);
    var n := 1 + Span(IsIdentCont, d[1..]);
    WordTokenSpelled(d[..n]);
    ReadAs(d, n, WordToken(d[..n]));
  }

  /** Any run of digits is some zeros and then a number written out. */
  lemma {:induction false} DigitsOfNumber(ds: seq<byte>) returns (zeros: seq<byte>)
    requires AllDigits(ds)
    ensures Number(ds) >= 0 && Zeros(zeros) && ds == zeros + Digits(Number(ds))
  {
    var n := |ds| - 1;
    if n == 0 {
      assert ds[..0] == [];
      return [];
    }
    var init := ds[..n];
    var z := DigitsOfNumber(init);
    assert ds == init + [ds[n]];
    if Number(init) == 0 {
      assert Digits(0) == [48];
      return init;
    }
    return z;
  }

  lemma IntSpelled(d: seq<byte>, sign: seq<byte>, ds: seq<byte>, rest: seq<byte>)
    requires (sign == [] || sign == [MINUS]) && d == sign + ds + rest
    requires AllDigits(ds) && (rest == [] || !IsDigit(rest[0])) && IntToken(sign != [], ds, rest).Lexeme?
    ensures ReadFrom(sign + ds, d, IntToken(sign != [], ds, rest))
  {
    var zeros := DigitsOfNumber(ds);
    assert IsIntText(IntToken(sign != [], ds, rest).token.value, sign, zeros, sign + ds);
  }

  /** The sign and the digits at the head of `d`. */
  lemma DigitsAhead(d: seq<byte>, m: nat)
    requires m < |d| && IsDigit(d[m])
    ensures var n := m + Span(IsDigit, d[m..]);
            n <= |d| && AllDigits(d[m..n]) && d == d[..m] + d[m..n] + d[n..] && (n == |d| || !IsDigit(d[n]))
  {
    SpanIs(IsDigit, d[m..]);
    var n := m + Span(IsDigit, d[m..]);
    assert forall i :: 0 <= i < n - m ==> d[m..n][i] == d[m..][i];
    assert n < |d| ==> d[n] == d[m..][n - m];
  }

  lemma {:induction false} StringSpelled(d: seq<byte>)
    requires StringEnd(d).Some?
    ensures var (v, rest) := StringEnd(d).value;
            d == Escaped(v) + ([QUOTE] + rest) && (rest == [] || rest[0] != QUOTE)
    decreases |d|
  {
    if d[0] == QUOTE && !(|d| > 1 && d[1] == QUOTE) {
      assert d == [] + ([QUOTE] + d[1..]);
    } else {
      var head := if d[0] == QUOTE then d[..2] else d[..1];
      var next := d[|head|..];
      StringSpelled(next);
      var (v, rest) := StringEnd(next).value;
      EscapedStep(d[0], v);
      assert head == if d[0] == QUOTE then [QUOTE, QUOTE] else [d[0]];
      assert d == head + (Escaped(v) + ([QUOTE] + rest));
      ConcatAssoc(head, Escaped(v), [QUOTE] + rest);
    }
  }

  lemma EscapedStep(b: byte, v: Text)
    ensures Escaped([b] + v) == (if b == QUOTE then [QUOTE, QUOTE] else [b]) + Escaped(v)
  {
    assert ([b] + v)[1..] == v;
  }

  lemma QuotedAssoc(e: seq<byte>, rest: seq<byte>)
    ensures [QUOTE] + (e + ([QUOTE] + rest)) == [QUOTE] + e + [QUOTE] + rest
  {
  }

  lemma QuotedSpelled(d: seq<byte>)
    requires d != [] && d[0] == QUOTE && StringEnd(d[1..]).Some?
    ensures ReadFrom([QUOTE] + Escaped(StringEnd(d[1..]).value.0) + [QUOTE], d, LexToken(d))
  {
    var (v, rest) := StringEnd(d[1..]).value;
    StringSpelled(d[1..]);
    assert d == [QUOTE] + d[1..];
    QuotedAssoc(Escaped(v), rest);
    assert Spells([QUOTE] + Escaped(v) + [QUOTE], StrTok(v));
  }

  lemma SymbolSpelled(d: seq<byte>)
    requires d != [] && LexSymbol(d).Lexeme?
    ensures LexSymbol(d).token.Sym? && ReadFrom(SymbolText(LexSymbol(d).token.symbol), d, LexSymbol(d))
  {
    assert d == [d[0]] + d[1..];
    if |d| > 1 { assert d == [d[0], d[1]] + d[2..]; }
  }

  lemma NumberSpelled(d: seq<byte>) returns (w: seq<byte>)
    requires d != [] && (IsDigit(d[0]) || (d[0] == MINUS && |d| > 1 && IsDigit(d[1]))) && LexNumber(d).Lexeme?
    ensures ReadFrom(w, d, LexNumber(d))
  {
    var m := if d[0] == MINUS then 1 else 0;
    DigitsAhead(d, m);
    var n := m + Span(IsDigit, d[m..]);
    assert d[..m] == if m == 1 then [MINUS] else [];
    IntSpelled(d, d[..m], d[m..n], d[n..]);
    w := d[..m] + d[m..n];
  }

  lemma TokenSpelled(d: seq<byte>) returns (w: seq<byte>)
    requires d != [] && LexToken(d).Lexeme?
    ensures ReadFrom(w, d, LexToken(d))
  {
    if IsIdentStart(d[0]) {
      WordSpelled(d);
      w := d[..1 + Span(IsIdentCont, d[1..])];
    } else if IsDigit(d[0]) || (d[0] == MINUS && |d| > 1 && IsDigit(d[1])) {
      w := NumberSpelled(d);
    } else if d[0] == QUOTE {
      QuotedSpelled(d);
      w := [QUOTE] + Escaped(StringEnd(d[1..]).value.0) + [QUOTE];
    } else {
      SymbolSpelled(d);
      w := SymbolText(LexSymbol(d).token.symbol);
    }
  }

  // ----- the tokens of a text

  lemma {:induction false} GapSkipped(gap: seq<byte>, d: seq<byte>)
    requires Gap(gap)
    ensures Lexed(gap + d) == Lexed(d)
  {
    if gap == [] {
      assert gap + d == d;
    } else {
      GapSkipped(gap[1..], d);
      assert (gap + d)[0] == gap[0] && (gap + d)[1..] == gap[1..] + d;
    }
  }

  lemma GapGrows(b: byte, gap: seq<byte>)
    requires Blank(b) && Gap(gap)
    ensures Gap([b] + gap)
  {
    forall i | 0 <= i < |gap| + 1 ensures Blank(([b] + gap)[i]) {
      if i > 0 { assert ([b] + gap)[i] == gap[i - 1]; }
    }
  }

  lemma WiderGap(b: byte, d: seq<byte>, gap: seq<byte>, w: seq<byte>, t: Token, rest: seq<byte>)
    requires Blank(b) && Piece(d, gap, w, t, rest)
    ensures Piece([b] + d, [b] + gap, w, t, rest)
  {
    ConcatAssoc([b], gap, w + rest);
    GapGrows(b, gap);
  }

  /** A blank more in front changes nothing. */
  lemma BlankBefore(b: byte, d: seq<byte>, ts: seq<Token>)
    requires Blank(b) && Tokenized(d, ts)
    ensures Tokenized([b] + d, ts)
  {
    if ts != [] {
      var gap, w, rest :| Piece(d, gap, w, ts[0], rest) && Tokenized(rest, ts[1..]);
      WiderGap(b, d, gap, w, ts[0], rest);
    }
  }

  lemma NoGap(w: seq<byte>, t: Token, rest: seq<byte>)
    requires Spells(w, t) && EndsBefore(t, rest)
    ensures Piece(w + rest, [], w, t, rest)
  {
    assert [] + (w + rest) == w + rest;
  }

  lemma TokenBefore(w: seq<byte>, t: Token, rest: seq<byte>, ts: seq<Token>)
    requires Spells(w, t) && EndsBefore(t, rest) && Tokenized(rest, ts)
    ensures Tokenized(w + rest, [t] + ts)
  {
    NoGap(w, t, rest);
    var all := [t] + ts;
    assert all[0] == t && all[1..] == ts;
  }

  lemma {:induction false} LexedIsTokenized(d: seq<byte>)
    requires Lexed(d).Some?
    ensures Tokenized(d, Lexed(d).value)
    decreases |d|
  {
    if d == [] {
    } else if IsSpace(d[0]) {
      LexedIsTokenized(d[1..]);
      BlankBefore(d[0], d[1..], Lexed(d).value);
      assert d == [d[0]] + d[1..];
    } else {
      var l := LexToken(d);
      var w := TokenSpelled(d);
      LexedIsTokenized(l.rest);
      TokenBefore(w, l.token, l.rest, Lexed(l.rest).value);
    }
  }

  lemma PieceIsLexed(d: seq<byte>, gap: seq<byte>, w: seq<byte>, t: Token, rest: seq<byte>)
    requires Piece(d, gap, w, t, rest)
    ensures Lexed(d) == Prefixed([t], Lexed(rest))
  {
    GapSkipped(gap, w + rest);
    TokenReads(w, t, rest);
    NotBlank(w, t);
    LexedStep(t, w + rest, rest);
  }

  lemma {:induction false} TokenizedIsLexed(d: seq<byte>, ts: seq<Token>)
    requires Tokenized(d, ts)
    ensures Lexed(d) == Some(ts)
    decreases |ts|
  {
    if ts == [] {
      GapSkipped(d, []);
      assert d + [] == d;
    } else {
      var gap, w, rest :| Piece(d, gap, w, ts[0], rest) && Tokenized(rest, ts[1..]);
      PieceIsLexed(d, gap, w, ts[0], rest);
      TokenizedIsLexed(rest, ts[1..]);
      assert ts == [ts[0]] + ts[1..];
    }
  }

  lemma LexedStep(t: Token, d: seq<byte>, rest: seq<byte>)
    requires d != [] && !IsSpace(d[0]) && LexToken(d) == Lexeme(t, rest)
    ensures Lexed(d) == Prefixed([t], Lexed(rest))
  {
  }

  /** Scanning finds the tokens of a text exactly when it has any. */
  lemma LexedIff(d: seq<byte>, ts: seq<Token>)
    ensures Lexed(d) == Some(ts) <==> Tokenized(d, ts)
  {
    if Lexed(d) == Some(ts) { LexedIsTokenized(d); }
    if Tokenized(d, ts) { TokenizedIsLexed(d, ts); }
  }

  lemma LexedIs(d: seq<byte>)
    ensures forall ts :: Lexed(d) == Some(ts) <==> Tokenized(d, ts)
  {
    forall ts ensures Lexed(d) == Some(ts) <==> Tokenized(d, ts) {
      LexedIff(d, ts);
    }
  }

  // ----- writing tokens

  ghost predicate AllTokensOk(ts: seq<Token>) {
    forall i :: 0 <= i < |ts| ==> TokenOk(ts[i])
  }

  lemma SpelledSpells(t: Token)
    requires TokenOk(t)
    ensures Spells(Spelled(t), t)
  {
    if t.IntTok? {
      var sign := if t.value < 0 then [MINUS] else [];
      assert [] + Digits(Magnitude(t.value)) == Digits(Magnitude(t.value));
      assert IsIntText(t.value, sign, [], Spelled(t));
    }
  }

  /** Any spellings with any gaps: a gap, then each text followed by its gap. */
  ghost function Spaced(gap: seq<byte>, ws: seq<seq<byte>>, gaps: seq<seq<byte>>): seq<byte>
    requires |gaps| == |ws|
    decreases |ws|
  {
    if ws == [] then gap else gap + (ws[0] + Spaced(gaps[0], ws[1..], gaps[1..]))
  }

  lemma {:induction false} SpacedTokenized(ts: seq<Token>, gap: seq<byte>, ws: seq<seq<byte>>, gaps: seq<seq<byte>>)
    requires |ts| == |ws| == |gaps| && Gap(gap)
    requires forall i :: 0 <= i < |ts| ==> Spells(ws[i], ts[i]) && gaps[i] != [] && Gap(gaps[i])
    ensures Tokenized(Spaced(gap, ws, gaps), ts)
  {
    if ts != [] {
      var rest := Spaced(gaps[0], ws[1..], gaps[1..]);
      SpacedTokenized(ts[1..], gaps[0], ws[1..], gaps[1..]);
      assert rest[0] == gaps[0][0];
      assert Piece(Spaced(gap, ws, gaps), gap, ws[0], ts[0], rest);
    }
  }

  /**
   Reading back any sequence of tokens, however each is spelled and whatever non-empty run of blanks, tabs and line
   ends stands behind each.
   */
  lemma SpacedRoundTrip(ts: seq<Token>, gap: seq<byte>, ws: seq<seq<byte>>, gaps: seq<seq<byte>>)
    requires |ts| == |ws| == |gaps| && Gap(gap)
    requires forall i :: 0 <= i < |ts| ==> Spells(ws[i], ts[i]) && gaps[i] != [] && Gap(gaps[i])
    ensures Lexed(Spaced(gap, ws, gaps)) == Some(ts)
  {
    SpacedTokenized(ts, gap, ws, gaps);
    LexedIff(Spaced(gap, ws, gaps), ts);
  }

  lemma {:induction false} RenderedTokenized(ts: seq<Token>)
    requires AllTokensOk(ts)
    ensures Tokenized(Rendered(ts), ts)
  {
    if ts != [] {
      RenderedTokenized(ts[1..]);
      SpelledSpells(ts[0]);
      BlankBefore(BLANK, Rendered(ts[1..]), ts[1..]);
      TokenBefore(Spelled(ts[0]), ts[0], [BLANK] + Rendered(ts[1..]), ts[1..]);
      assert ts == [ts[0]] + ts[1..];
    }
  }

  /** Reading back any sequence of tokens that was written out. */
  lemma LexRoundTrip(ts: seq<Token>)
    requires AllTokensOk(ts)
    ensures Lexed(Rendered(ts)) == Some(ts)
  {
    RenderedTokenized(ts);
    LexedIff(Rendered(ts), ts);
  }

  // ----- the scanning loop

  /** One token at `pos`, by the word, number, string and symbol branches. */
  method ScanToken(sql: seq<byte>, pos: nat) returns (r: Lexeme)
    requires pos < |sql|
    ensures r == LexToken(sql[pos..])
  {
    var c := sql[pos];
    var d := sql[pos..];
    if IsIdentStart(c) {
      var end := SpanLoop(IsIdentCont, d, 1);
      return Lexeme(WordToken(d[..end]), d[end..]);
    }
    if IsDigit(c) || (c == MINUS && |d| > 1 && IsDigit(d[1])) {
      var start := if c == MINUS then 1 else 0;
      var end := SpanLoop(IsDigit, d, start);
      return IntToken(start == 1, d[start..end], d[end..]);
    }
    if c == QUOTE {
      var s := ScanString(d, 1);
      return match s { case None => Bad case Some((v, rest)) => Lexeme(StrTok(v), rest) };
    }
    return LexSymbol(d);
  }

  /** The loop over a string literal, behind its opening quote. */
  method ScanString(d: seq<byte>, start: nat) returns (r: Option<(Text, seq<byte>)>)
    requires start <= |d|
    ensures r == StringEnd(d[start..])
  {
    var value, pos := [], start;
    ValuePrefixNone(StringEnd(d[start..]));
    while pos < |d|
      invariant start <= pos <= |d|
      invariant StringEnd(d[start..]) == ValuePrefix(value, StringEnd(d[pos..]))
      decreases |d| - pos
    {
      if d[pos] == QUOTE && !(pos + 1 < |d| && d[pos + 1] == QUOTE) {
        assert d[pos..][1..] == d[pos + 1..];
        assert value + [] == value;
        return Some((value, d[pos + 1..]));
      }
      var step := if d[pos] == QUOTE then 2 else 1;
      assert d[pos..][step..] == d[pos + step..];
      ValuePrefixOne(value, d[pos], StringEnd(d[pos + step..]));
      value := value + [d[pos]];
      pos := pos + step;
    }
    return None;
  }

  function ValuePrefix(v: Text, r: Option<(Text, seq<byte>)>): Option<(Text, seq<byte>)> {
    match r
    case None => None
    case Some((w, rest)) => Some((v + w, rest))
  }

  lemma ValuePrefixNone(r: Option<(Text, seq<byte>)>)
    ensures ValuePrefix([], r) == r
  {
    if r.Some? { assert [] + r.value.0 == r.value.0; }
  }

  lemma ValuePrefixOne(v: Text, b: byte, r: Option<(Text, seq<byte>)>)
    ensures ValuePrefix(v + [b], r) == ValuePrefix(v, ValuePrefix([b], r))
  {
    if r.Some? { ConcatAssoc(v, [b], r.value.0); }
  }

  /** The tokens of the text, if it has any; no text has more than one list of tokens. */
  method Tokenize(sql: seq<byte>) returns (r: Option<seq<Token>>)
    ensures forall ts :: r == Some(ts) <==> Tokenized(sql, ts)
    ensures r == Lexed(sql)
  {
    r := ScanTokens(sql);
    LexedIs(sql);
  }

  /** The loop over the text. */
  method ScanTokens(sql: seq<byte>) returns (r: Option<seq<Token>>)
    ensures r == Lexed(sql)
  {
    var tokens, pos := [], 0;
    assert sql[0..] == sql;
    PrefixedNone(Lexed(sql));
    while pos < |sql|
      invariant 0 <= pos <= |sql| && ReadTo(sql, tokens, pos)
      decreases |sql| - pos
    {
      if IsSpace(sql[pos]) {
        SpaceStep(sql, pos, tokens);
        pos := pos + 1;
      } else {
        var lexeme := ScanToken(sql, pos);
        if lexeme.Bad? {
          BadStep(sql[pos..]);
          return None;
        }
        TokenStep(sql, pos, lexeme, tokens);
        tokens := tokens + [lexeme.token];
        pos := |sql| - |lexeme.rest|;
      }
    }
    ReadAll(sql, tokens);
    return Some(tokens);
  }

  /** What is left to read, behind the tokens read so far. */
  ghost predicate ReadTo(sql: seq<byte>, tokens: seq<Token>, pos: nat)
    requires pos <= |sql|
  {
    Lexed(sql) == Prefixed(tokens, Lexed(sql[pos..]))
  }

  lemma ReadAll(sql: seq<byte>, tokens: seq<Token>)
    requires ReadTo(sql, tokens, |sql|)
    ensures Lexed(sql) == Some(tokens)
  {
    assert tokens + [] == tokens;
  }

  lemma PrefixedNone(r: Option<seq<Token>>)
    ensures Prefixed([], r) == r
  {
    if r.Some? { assert [] + r.value == r.value; }
  }

  lemma PrefixedOne(tokens: seq<Token>, t: Token, r: Option<seq<Token>>)
    ensures Prefixed(tokens + [t], r) == Prefixed(tokens, Prefixed([t], r))
  {
    if r.Some? { ConcatAssoc(tokens, [t], r.value); }
  }

  lemma SpaceStep(sql: seq<byte>, pos: nat, tokens: seq<Token>)
    requires pos < |sql| && IsSpace(sql[pos]) && ReadTo(sql, tokens, pos)
    ensures ReadTo(sql, tokens, pos + 1)
  {
    assert sql[pos..][1..] == sql[pos + 1..];
  }

  lemma BadStep(d: seq<byte>)
    requires d != [] && !IsSpace(d[0]) && LexToken(d).Bad?
    ensures Lexed(d) == None
  {
  }

  lemma TokenStep(sql: seq<byte>, pos: nat, l: Lexeme, tokens: seq<Token>)
    requires pos < |sql| && !IsSpace(sql[pos]) && l == LexToken(sql[pos..]) && l.Lexeme? && ReadTo(sql, tokens, pos)
    ensures |l.rest| < |sql| - pos && ReadTo(sql, tokens + [l.token], |sql| - |l.rest|)
  {
    var d := sql[pos..];
    var w := TokenSpelled(d);
    assert d == w + l.rest;
    assert l.rest == sql[|sql| - |l.rest|..];
    LexedStep(l.token, d, l.rest);
    PrefixedOne(tokens, l.token, Lexed(l.rest));
  }
}
