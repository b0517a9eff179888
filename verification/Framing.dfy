/**
 A log as a run of framed records, whatever the record format: what the parse loop
 finds in a whole log, a torn one and a corrupted one.
 */
module Framing {
  import opened Wrappers
  import opened Seqs
  import opened Bytes

  /** A record with one byte changed, and what follows it. */
  function Poked(e: seq<byte>, j: nat, b: byte, rest: seq<byte>): seq<byte>
    requires j < |e|
  {
    e[j := b] + rest
  }

  datatype Codec<!R(!new)> = Codec(enc: R -> seq<byte>, parse: seq<byte> -> Option<R>, wf: R -> bool) {

    ghost predicate NonEmpty() {
      forall r :: |enc(r)| > 0
    }

    /** An encoded record is read back, whatever follows it. */
    ghost predicate ReadsBack() {
      forall r, rest :: wf(r) ==> parse(enc(r) + rest) == Some(r)
    }

    /** Whatever parses is the encoding of the record it parses to. */
    ghost predicate Exact() {
      forall d :: parse(d).Some? ==> wf(parse(d).value) && enc(parse(d).value) <= d
    }

    /** A record cut short does not parse. */
    ghost predicate NoticesCuts() {
      forall r, k: nat :: wf(r) && k < |enc(r)| ==> parse(enc(r)[..k]).None?
    }

    /** Nor does a record with one byte changed. */
    ghost predicate NoticesChanges() {
      forall r, j: nat, b, rest :: wf(r) && j < |enc(r)| && enc(r)[j] != b ==> parse(Poked(enc(r), j, b, rest)).None?
    }

    ghost predicate Sound() {
      NonEmpty() && ReadsBack() && Exact() && NoticesCuts() && NoticesChanges()
    }
  }

  ghost function EncodeAll<R(!new)>(c: Codec<R>, rs: seq<R>): seq<byte> {
    if rs == [] then [] else c.enc(rs[0]) + EncodeAll(c, rs[1..])
  }

  /** The records at the head of `d`, up to the first bytes that are not one. */
  ghost function ParseAll<R(!new)>(c: Codec<R>, d: seq<byte>): seq<R>
    requires c.NonEmpty() && c.Exact()
    decreases |d|
  {
    var r := c.parse(d);
    if r.None? then [] else [r.value] + ParseAll(c, d[|c.enc(r.value)|..])
  }

  ghost predicate AllWellFormed<R(!new)>(c: Codec<R>, rs: seq<R>) {
    forall i :: 0 <= i < |rs| ==> c.wf(rs[i])
  }

  lemma {:induction false} EncodeAllAppend<R(!new)>(c: Codec<R>, a: seq<R>, b: seq<R>)
    ensures EncodeAll(c, a + b) == EncodeAll(c, a) + EncodeAll(c, b)
  {
    if a == [] {
      assert a + b == b;
    } else {
      EncodeAllAppend(c, a[1..], b);
      assert (a + b)[0] == a[0] && (a + b)[1..] == a[1..] + b;
      ConcatAssoc(c.enc(a[0]), EncodeAll(c, a[1..]), EncodeAll(c, b));
    }
  }

  lemma EncodeAllSnoc<R(!new)>(c: Codec<R>, rs: seq<R>, r: R)
    ensures EncodeAll(c, rs + [r]) == EncodeAll(c, rs) + c.enc(r)
  {
    EncodeAllAppend(c, rs, [r]);
    assert [r][1..] == [];
    assert EncodeAll(c, [r]) == c.enc(r);
  }

  lemma ParseAllCons<R(!new)>(c: Codec<R>, r: R, rest: seq<byte>)
    requires c.Sound() && c.wf(r)
    ensures ParseAll(c, c.enc(r) + rest) == [r] + ParseAll(c, rest)
  {
    ConcatSlices(c.enc(r), rest);
    assert c.parse(c.enc(r) + rest) == Some(r);
  }

  /** A log followed by anything that is not a record parses to exactly the log. */
  lemma {:induction false} ParseAllEncoded<R(!new)>(c: Codec<R>, rs: seq<R>, rest: seq<byte>)
    requires c.Sound() && AllWellFormed(c, rs) && c.parse(rest).None?
    ensures ParseAll(c, EncodeAll(c, rs) + rest) == rs
  {
    if rs == [] {
      assert EncodeAll(c, rs) + rest == rest;
    } else {
      ParseAllEncoded(c, rs[1..], rest);
      ConcatAssoc(c.enc(rs[0]), EncodeAll(c, rs[1..]), rest);
      ParseAllCons(c, rs[0], EncodeAll(c, rs[1..]) + rest);
    }
  }

  /** What the parse loop has when it stops: records that make up the file so far, and then no record. */
  lemma ScanStops<R(!new)>(c: Codec<R>, data: seq<byte>, offset: nat, rs: seq<R>)
    requires c.Sound() && offset <= |data| && data[..offset] == EncodeAll(c, rs) && AllWellFormed(c, rs)
    requires c.parse(data[offset..]).None?
    ensures ParseAll(c, data) == rs
  {
    assert data == data[..offset] + data[offset..];
    ParseAllEncoded(c, rs, data[offset..]);
  }

  lemma {:induction false} ParsedWellFormed<R(!new)>(c: Codec<R>, d: seq<byte>)
    requires c.Sound()
    ensures AllWellFormed(c, ParseAll(c, d))
    decreases |d|
  {
    if c.parse(d).Some? {
      ParsedWellFormed(c, d[|c.enc(c.parse(d).value)|..]);
    }
  }

  // ----- torn tails

  /** How many records lie wholly inside the first k bytes. */
  ghost function WholeRecords<R(!new)>(c: Codec<R>, rs: seq<R>, k: nat): (m: nat)
    ensures m <= |rs|
  {
    if rs == [] || k < |c.enc(rs[0])| then 0 else 1 + WholeRecords(c, rs[1..], k - |c.enc(rs[0])|)
  }

  lemma PrefixEncode<R(!new)>(c: Codec<R>, rs: seq<R>, m: nat)
    requires 0 < m <= |rs|
    ensures EncodeAll(c, rs[..m]) == c.enc(rs[0]) + EncodeAll(c, rs[1..][..m - 1])
  {
    assert rs[..m][1..] == rs[1..][..m - 1];
  }

  /** It is the largest number of records that fit. */
  lemma {:induction false} WholeRecordsIs<R(!new)>(c: Codec<R>, rs: seq<R>, k: nat)
    ensures var m := WholeRecords(c, rs, k);
            |EncodeAll(c, rs[..m])| <= k && (m < |rs| ==> k < |EncodeAll(c, rs[..m + 1])|)
  {
    var m := WholeRecords(c, rs, k);
    if rs != [] {
      PrefixEncode(c, rs, 1);
      if k >= |c.enc(rs[0])| {
        WholeRecordsIs(c, rs[1..], k - |c.enc(rs[0])|);
        PrefixEncode(c, rs, m);
        if m < |rs| { PrefixEncode(c, rs, m + 1); }
      }
    }
  }

  /** Torn tail: a log cut at any byte opens with exactly the records wholly inside the cut. */
  lemma {:induction false} CutLog<R(!new)>(c: Codec<R>, rs: seq<R>, k: nat)
    requires c.Sound() && AllWellFormed(c, rs) && k <= |EncodeAll(c, rs)|
    ensures ParseAll(c, EncodeAll(c, rs)[..k]) == rs[..WholeRecords(c, rs, k)]
  {
    if rs == [] {
      NothingParses(c);
    } else {
      var n, tail := |c.enc(rs[0])|, EncodeAll(c, rs[1..]);
      CutConcat(c.enc(rs[0]), tail, k);
      if k >= n {
        CutLog(c, rs[1..], k - n);
        ParseAllCons(c, rs[0], tail[..k - n]);
        ConsPrefix(rs, WholeRecords(c, rs, k));
      }
    }
  }

  lemma NothingParses<R(!new)>(c: Codec<R>)
    requires c.NonEmpty() && c.Exact()
    ensures c.parse([]).None?
  {
  }

  /** What is left of a torn log, with one more record appended, reads back as just that. */
  lemma CutThenAppend<R(!new)>(c: Codec<R>, rs: seq<R>, k: nat, r: R)
    requires c.Sound() && AllWellFormed(c, rs) && k <= |EncodeAll(c, rs)| && c.wf(r)
    ensures var left := ParseAll(c, EncodeAll(c, rs)[..k]);
            left == rs[..WholeRecords(c, rs, k)] && ParseAll(c, EncodeAll(c, left) + c.enc(r)) == left + [r]
  {
    CutLog(c, rs, k);
    NothingParses(c);
    var all := ParseAll(c, EncodeAll(c, rs)[..k]) + [r];
    ParseAllEncoded(c, all, []);
    EncodeAllSnoc(c, all[..|all| - 1], r);
    assert all == all[..|all| - 1] + [r];
    assert EncodeAll(c, all) + [] == EncodeAll(c, all);
  }

  // ----- corruption

  lemma PokedHead<R(!new)>(c: Codec<R>, r: R, j: nat, b: byte, rest: seq<byte>)
    requires c.Sound() && c.wf(r) && j < |c.enc(r)| && c.enc(r)[j] != b
    ensures ParseAll(c, c.enc(r)[j := b] + rest) == []
  {
    assert c.parse(Poked(c.enc(r), j, b, rest)).None?;
  }

  /** Any single-byte change in record i makes opening yield exactly the records before it. */
  lemma {:induction false} CorruptLog<R(!new)>(c: Codec<R>, rs: seq<R>, i: nat, j: nat, b: byte)
    requires c.Sound() && AllWellFormed(c, rs) && i < |rs| && j < |c.enc(rs[i])| && c.enc(rs[i])[j] != b
    ensures var at := |EncodeAll(c, rs[..i])| + j;
            at < |EncodeAll(c, rs)| && ParseAll(c, EncodeAll(c, rs)[at := b]) == rs[..i]
  {
    var tail := EncodeAll(c, rs[1..]);
    if i == 0 {
      assert rs[..0] == [];
      PokeConcat(c.enc(rs[0]), tail, j, b);
      PokedHead(c, rs[0], j, b, tail);
    } else {
      PrefixEncode(c, rs, i);
      CorruptLog(c, rs[1..], i - 1, j, b);
      PokedTail(c, rs[0], tail, |EncodeAll(c, rs[1..][..i - 1])| + j, b);
      ConsPrefix(rs, i);
    }
  }

  lemma PokedTail<R(!new)>(c: Codec<R>, r: R, rest: seq<byte>, at: nat, b: byte)
    requires c.Sound() && c.wf(r) && at < |rest|
    ensures ParseAll(c, (c.enc(r) + rest)[|c.enc(r)| + at := b]) == [r] + ParseAll(c, rest[at := b])
  {
    PokeConcat(c.enc(r), rest, |c.enc(r)| + at, b);
    ParseAllCons(c, r, rest[at := b]);
  }
}
