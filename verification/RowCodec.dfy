/** Rows as bytes (src/sql/row_codec.cpp): 8-byte integers and length-prefixed text, column by column. */
module RowCodec {
  import opened Wrappers
  import opened Seqs
  import opened Bytes
  import opened Sql

  function EncodeValue(typ: ColumnType, v: Literal): seq<byte> {
    if typ.IntegerType? then LE(Unsigned(IntValue(v)), 8)
    else LE(|StrValue(v)|, 4) + StrValue(v)
  }

  function Encoded(columns: seq<ColumnDef>, values: seq<Literal>): seq<byte>
    requires |values| == |columns|
  {
    if columns == [] then [] else EncodeValue(columns[0].typ, values[0]) + Encoded(columns[1..], values[1..])
  }

  /** The value of one column at the head of `d`, and the bytes behind it. */
  function DecodeValue(typ: ColumnType, d: seq<byte>): (r: Option<(Literal, seq<byte>)>)
    ensures r.Some? ==> KindMatches(typ, r.value.0)
  {
    if typ.IntegerType? then
      if |d| < 8 then None
      else
        FromLEBound(d[..8]);
        Widths();
        Some((IntLit(Signed(FromLE(d[..8]))), d[8..]))
    else if |d| < 4 then None
    else
      var len := FromLE(d[..4]);
      if 4 + len > |d| then None else Some((StrLit(d[4..4 + len]), d[4 + len..]))
  }

  /** Bytes behind the last column are ignored. */
  function Decoded(columns: seq<ColumnDef>, d: seq<byte>): (r: Option<seq<Literal>>)
    ensures r.Some? ==> WellTyped(columns, r.value)
  {
    if columns == [] then Some([])
    else
      match DecodeValue(columns[0].typ, d)
      case None => None
      case Some((v, rest)) =>
        match Decoded(columns[1..], rest)
        case None => None
        case Some(vs) => Some([v] + vs)
  }

  method EncodeRow(columns: seq<ColumnDef>, values: seq<Literal>) returns (out: seq<byte>)
    requires |values| == |columns|
    ensures out == Encoded(columns, values)
  {
    out := [];
    var i := 0;
    while i < |columns|
      invariant 0 <= i <= |columns|
      invariant out + Encoded(columns[i..], values[i..]) == Encoded(columns, values)
    {
      assert columns[i..][1..] == columns[i + 1..] && values[i..][1..] == values[i + 1..];
      ConcatAssoc(out, EncodeValue(columns[i].typ, values[i]), Encoded(columns[i + 1..], values[i + 1..]));
      if columns[i].typ.IntegerType? {
        out := out + LE(Unsigned(IntValue(values[i])), 8);
      } else {
        out := out + (LE(|StrValue(values[i])|, 4) + StrValue(values[i]));
      }
      i := i + 1;
    }
    assert out + [] == out;
  }

  method DecodeRow(columns: seq<ColumnDef>, bytes: seq<byte>) returns (r: Option<seq<Literal>>)
    ensures r == Decoded(columns, bytes)
  {
    var values, offset, i := [], 0, 0;
    assert bytes[0..] == bytes && columns[0..] == columns;
    PrependNone(Decoded(columns, bytes));
    while i < |columns|
      invariant 0 <= i <= |columns| && 0 <= offset <= |bytes| && ReadSoFar(columns, bytes, values, i, offset)
    {
      var v := DecodeValue(columns[i].typ, bytes[offset..]);
      DecodeStep(columns, bytes, values, i, offset);
      if v.None? {
        return None;
      }
      values := values + [v.value.0];
      offset := |bytes| - |v.value.1|;
      i := i + 1;
    }
    AllRead(columns, bytes, values, offset);
    return Some(values);
  }

  function Prepend(values: seq<Literal>, r: Option<seq<Literal>>): Option<seq<Literal>> {
    if r.None? then None else Some(values + r.value)
  }

  lemma PrependNone(r: Option<seq<Literal>>)
    ensures Prepend([], r) == r
  {
    if r.Some? {
      assert [] + r.value == r.value;
    }
  }

  /** Decoding is the values read so far and what the rest decodes to. */
  ghost predicate ReadSoFar(columns: seq<ColumnDef>, bytes: seq<byte>, values: seq<Literal>, i: nat, offset: nat)
    requires i <= |columns| && offset <= |bytes|
  {
    Decoded(columns, bytes) == Prepend(values, Decoded(columns[i..], bytes[offset..]))
  }

  lemma AllRead(columns: seq<ColumnDef>, bytes: seq<byte>, values: seq<Literal>, offset: nat)
    requires offset <= |bytes| && ReadSoFar(columns, bytes, values, |columns|, offset)
    ensures Decoded(columns, bytes) == Some(values)
  {
    assert values + [] == values;
  }

  /** One column more: its value joins those read so far, and reading goes on behind it. */
  lemma DecodeStep(columns: seq<ColumnDef>, bytes: seq<byte>, values: seq<Literal>, i: nat, offset: nat)
    requires i < |columns| && offset <= |bytes| && ReadSoFar(columns, bytes, values, i, offset)
    ensures var v := DecodeValue(columns[i].typ, bytes[offset..]);
            && (v.None? ==> Decoded(columns, bytes) == None)
            && (v.Some? ==>
                  && |v.value.1| <= |bytes|
                  && ReadSoFar(columns, bytes, values + [v.value.0], i + 1, |bytes| - |v.value.1|))
  {
    var v := DecodeValue(columns[i].typ, bytes[offset..]);
    DecodedFirst(columns, i, bytes[offset..]);
    if v.Some? {
      ValueSuffix(columns[i].typ, bytes, offset);
      FirstJoins(Decoded(columns, bytes), values, Decoded(columns[i..], bytes[offset..]), v.value.0,
                 Decoded(columns[i + 1..], v.value.1));
    }
  }

  lemma FirstJoins(all: Option<seq<Literal>>, values: seq<Literal>, here: Option<seq<Literal>>, v: Literal,
                   tail: Option<seq<Literal>>)
    requires all == Prepend(values, here) && here == Prepend([v], tail)
    ensures all == Prepend(values + [v], tail)
  {
    PrependOne(values, v, tail);
  }

  lemma DecodedFirst(columns: seq<ColumnDef>, i: nat, d: seq<byte>)
    requires i < |columns|
    ensures Decoded(columns[i..], d) ==
            match DecodeValue(columns[i].typ, d) {
              case None => None
              case Some(v) => Prepend([v.0], Decoded(columns[i + 1..], v.1)) }
  {
    assert columns[i..][1..] == columns[i + 1..];
  }

  lemma ValueSuffix(typ: ColumnType, bytes: seq<byte>, offset: nat)
    requires offset <= |bytes| && DecodeValue(typ, bytes[offset..]).Some?
    ensures var rest := DecodeValue(typ, bytes[offset..]).value.1;
            |rest| <= |bytes| && bytes[|bytes| - |rest|..] == rest
  {
  }

  lemma PrependOne(values: seq<Literal>, v: Literal, r: Option<seq<Literal>>)
    ensures Prepend(values + [v], r) == Prepend(values, Prepend([v], r))
  {
    if r.Some? {
      ConcatAssoc(values, [v], r.value);
    }
  }

  // ----- round trip

  /** A value comes back exactly when its text, if it is one, has a length that four bytes can hold. */
  lemma ValueRoundTrip(typ: ColumnType, v: Literal, rest: seq<byte>)
    requires KindMatches(typ, v) && (v.StrLit? ==> |v.s| < U32)
    ensures DecodeValue(typ, EncodeValue(typ, v) + rest) == Some((v, rest))
  {
    Widths();
    if v.IntLit? {
      ConcatSlices(LE(Unsigned(v.i), 8), rest);
      RoundTripLE(Unsigned(v.i), 8);
      SignedUnsigned(v.i);
    } else {
      var n := |v.s|;
      var d := LE(n, 4) + v.s + rest;
      RoundTripLE(n, 4);
      assert d[..4] == LE(n, 4) && d[4..4 + n] == v.s && d[4 + n..] == rest;
    }
  }

  lemma LongValueIsLost(typ: ColumnType, v: Literal, rest: seq<byte>)
    requires typ.TextType? && v.StrLit? && |v.s| >= U32
    ensures var r := DecodeValue(typ, EncodeValue(typ, v) + rest); r.None? || r.value.0 != v
  {
    var d := EncodeValue(typ, v) + rest;
    assert d[..4] == LE(|v.s|, 4);
    FromLEBound(d[..4]);
    Widths();
  }

  ghost predicate TextFits(values: seq<Literal>) {
    forall i :: 0 <= i < |values| && values[i].StrLit? ==> |values[i].s| < U32
  }

  lemma {:induction false} RoundTripWith(columns: seq<ColumnDef>, values: seq<Literal>, rest: seq<byte>)
    requires WellTyped(columns, values) && TextFits(values)
    ensures Decoded(columns, Encoded(columns, values) + rest) == Some(values)
  {
    if columns != [] {
      var tail := Encoded(columns[1..], values[1..]);
      ConcatAssoc(EncodeValue(columns[0].typ, values[0]), tail, rest);
      ValueRoundTrip(columns[0].typ, values[0], tail + rest);
      RoundTripWith(columns[1..], values[1..], rest);
      assert values == [values[0]] + values[1..];
    }
  }

  lemma {:induction false} DecodedPrefix(columns: seq<ColumnDef>, values: seq<Literal>, rest: seq<byte>, i: nat)
    requires WellTyped(columns, values) && i < |values| && values[i].StrLit? && |values[i].s| >= U32
    ensures Decoded(columns, Encoded(columns, values) + rest) != Some(values)
  {
    var tail := Encoded(columns[1..], values[1..]);
    ConcatAssoc(EncodeValue(columns[0].typ, values[0]), tail, rest);
    if values[0].StrLit? && |values[0].s| >= U32 {
      LongValueIsLost(columns[0].typ, values[0], tail + rest);
    } else {
      ValueRoundTrip(columns[0].typ, values[0], tail + rest);
      DecodedPrefix(columns[1..], values[1..], rest, i - 1);
      TailDiffers(values, Decoded(columns[1..], tail + rest));
    }
  }

  lemma TailDiffers(values: seq<Literal>, r: Option<seq<Literal>>)
    requires values != [] && r != Some(values[1..])
    ensures Prepend([values[0]], r) != Some(values)
  {
    if r.Some? {
      assert ([values[0]] + r.value)[1..] == r.value;
    }
  }

  /** Decoding an encoded row gives it back exactly when no text is too long for its four-byte length. */
  lemma RowRoundTripIff(columns: seq<ColumnDef>, values: seq<Literal>)
    requires WellTyped(columns, values)
    ensures Decoded(columns, Encoded(columns, values)) == Some(values) <==> TextFits(values)
  {
    var e := Encoded(columns, values);
    assert e + [] == e;
    if TextFits(values) {
      RoundTripWith(columns, values, []);
    } else {
      var i :| 0 <= i < |values| && values[i].StrLit? && |values[i].s| >= U32;
      DecodedPrefix(columns, values, [], i);
    }
  }

  /** Each column takes at least the bytes of its text, so a row that fits a page has short text only. */
  lemma {:induction false} ShortRowFits(columns: seq<ColumnDef>, values: seq<Literal>)
    requires WellTyped(columns, values) && |Encoded(columns, values)| < U32
    ensures TextFits(values)
  {
    if columns != [] {
      ShortRowFits(columns[1..], values[1..]);
      assert values == [values[0]] + values[1..];
    }
  }
}
