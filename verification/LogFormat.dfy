/**
 One record of the write-ahead log on disk (src/wal/log_manager.cpp): its layout,
 its checksum, and the checks made before bytes are taken for a record.
 */
module LogFormat {
  import opened Wrappers
  import opened Bytes
  import opened Fnv
  import opened Framing

  const HEADER_SIZE: nat := 29
  const CHECKSUM_SIZE: nat := 4

  datatype RecordType = BeginType | UpdateType | CommitType | AbortType

  datatype LogRecord = LogRecord(lsn: nat, kind: RecordType, txn: nat, objectId: nat, pageId: nat, image: seq<byte>)

  function Code(k: RecordType): (c: nat)
    ensures 1 <= c <= 4
  {
    match k
    case BeginType => 1
    case UpdateType => 2
    case CommitType => 3
    case AbortType => 4
  }

  function KindOf(c: nat): (k: Option<RecordType>)
    ensures k.Some? ==> Code(k.value) == c
    ensures 1 <= c <= 4 ==> k.Some?
  {
    if c == 1 then Some(BeginType) else if c == 2 then Some(UpdateType)
    else if c == 3 then Some(CommitType) else if c == 4 then Some(AbortType) else None
  }

  function ExpectedPayloadLen(k: RecordType): nat {
    if k.UpdateType? then PAGE_SIZE else 0
  }

  /** The field widths of the layout are respected. */
  predicate WellFormed(r: LogRecord) {
    && r.lsn < U64 && r.txn < U64 && r.objectId < U32 && r.pageId < U32
    && |r.image| == ExpectedPayloadLen(r.kind)
  }

  /** lsn:8 type:1 txn:8 object:4 page:4 len:4 */
  function Header(r: LogRecord): (h: seq<byte>)
    ensures |h| == HEADER_SIZE
  {
    LE(r.lsn, 8) + LE(Code(r.kind), 1) + LE(r.txn, 8) + LE(r.objectId, 4) + LE(r.pageId, 4) + LE(|r.image|, 4)
  }

  function Body(r: LogRecord): (b: seq<byte>)
    ensures |b| == HEADER_SIZE + |r.image|
  {
    Header(r) + r.image
  }

  function Encode(r: LogRecord): (e: seq<byte>)
    ensures |e| == HEADER_SIZE + |r.image| + CHECKSUM_SIZE
  {
    Body(r) + LE(Hash(Body(r)), CHECKSUM_SIZE)
  }

  // ----- parsing

  function PayloadLen(d: seq<byte>): nat
    requires |d| >= HEADER_SIZE
  {
    FromLE(d[25..29])
  }

  /** The record at the head of `d`, if the bytes there are one. */
  function ParseOne(d: seq<byte>): (r: Option<LogRecord>)
    ensures r.Some? ==> |Encode(r.value)| <= |d|
  {
    if |d| < HEADER_SIZE then None
    else
      var kind := KindOf(FromLE(d[8..9]));
      if kind.None? then None
      else
        var len := PayloadLen(d);
        if len != ExpectedPayloadLen(kind.value) then None
        else
          var total := HEADER_SIZE + len + CHECKSUM_SIZE;
          if total > |d| then None
          else if FromLE(d[HEADER_SIZE + len..total]) != Hash(d[..HEADER_SIZE + len]) then None
          else Some(LogRecord(FromLE(d[..8]), kind.value, FromLE(d[9..17]), FromLE(d[17..21]), FromLE(d[21..25]),
                              d[HEADER_SIZE..HEADER_SIZE + len]))
  }

  /** The checks of one round of the parse loop, on the bytes at `offset`. */
  method ScanOne(data: seq<byte>, offset: nat) returns (r: Option<LogRecord>)
    requires offset <= |data|
    ensures r == ParseOne(data[offset..])
  {
    var d := data[offset..];
    if offset + HEADER_SIZE > |data| { return None; }
    var kind := KindOf(FromLE(d[8..9]));
    var len := FromLE(d[25..29]);
    if kind.None? { return None; }
    if len != ExpectedPayloadLen(kind.value) { return None; }
    var total := HEADER_SIZE + len + CHECKSUM_SIZE;
    if offset + total > |data| { return None; }
    var stored := FromLE(d[HEADER_SIZE + len..total]);
    var actual := Fnv1a32(d[..HEADER_SIZE + len]);
    if stored != actual { return None; }
    return Some(LogRecord(FromLE(d[..8]), kind.value, FromLE(d[9..17]), FromLE(d[17..21]), FromLE(d[21..25]),
                          d[HEADER_SIZE..HEADER_SIZE + len]));
  }

  // ----- parsing inverts encoding, both ways

  /** The fields sit where the reader looks for them. */
  lemma HeaderFields(r: LogRecord, d: seq<byte>)
    requires Header(r) <= d
    ensures d[..8] == LE(r.lsn, 8) && d[8..9] == LE(Code(r.kind), 1) && d[9..17] == LE(r.txn, 8)
    ensures d[17..21] == LE(r.objectId, 4) && d[21..25] == LE(r.pageId, 4) && d[25..29] == LE(|r.image|, 4)
  {
    var h := Header(r);
    assert d[..HEADER_SIZE] == h;
    assert forall i :: 0 <= i < HEADER_SIZE ==> d[i] == h[i];
  }

  lemma ReadFields(r: LogRecord, d: seq<byte>)
    requires WellFormed(r) && Header(r) <= d
    ensures FromLE(d[..8]) == r.lsn && FromLE(d[8..9]) == Code(r.kind) && FromLE(d[9..17]) == r.txn
    ensures FromLE(d[17..21]) == r.objectId && FromLE(d[21..25]) == r.pageId && FromLE(d[25..29]) == |r.image|
  {
    HeaderFields(r, d);
    Widths();
    RoundTripLE(r.lsn, 8);
    RoundTripLE(Code(r.kind), 1);
    RoundTripLE(r.txn, 8);
    RoundTripLE(r.objectId, 4);
    RoundTripLE(r.pageId, 4);
    RoundTripLE(|r.image|, 4);
  }

  lemma KindOfCode(k: RecordType)
    ensures KindOf(Code(k)) == Some(k)
  {
  }

  /** An encoded record is read back, whatever follows it. */
  lemma ParseEncoded(r: LogRecord, rest: seq<byte>)
    requires WellFormed(r)
    ensures ParseOne(Encode(r) + rest) == Some(r)
  {
    var d, n := Encode(r) + rest, HEADER_SIZE + |r.image|;
    assert Header(r) <= d;
    ReadFields(r, d);
    KindOfCode(r.kind);
    assert d[..n] == Body(r) && d[n..n + CHECKSUM_SIZE] == LE(Hash(Body(r)), CHECKSUM_SIZE);
    assert d[HEADER_SIZE..n] == r.image;
    Widths();
    HashFromBound(OFFSET, Body(r));
    RoundTripLE(Hash(Body(r)), CHECKSUM_SIZE);
  }

  /** The header bytes that were read are the header that would be written. */
  lemma HeaderExact(d: seq<byte>, r: LogRecord)
    requires |d| >= HEADER_SIZE
    requires r.lsn == FromLE(d[..8]) && Code(r.kind) == FromLE(d[8..9]) && r.txn == FromLE(d[9..17])
    requires r.objectId == FromLE(d[17..21]) && r.pageId == FromLE(d[21..25]) && |r.image| == FromLE(d[25..29])
    ensures Header(r) == d[..HEADER_SIZE]
  {
    RoundTripFromLE(d[..8]);
    RoundTripFromLE(d[8..9]);
    RoundTripFromLE(d[9..17]);
    RoundTripFromLE(d[17..21]);
    RoundTripFromLE(d[21..25]);
    RoundTripFromLE(d[25..29]);
  }

  lemma ParsedFieldsFit(d: seq<byte>)
    requires ParseOne(d).Some?
    ensures WellFormed(ParseOne(d).value)
  {
    Widths();
    FromLEBound(d[..8]);
    FromLEBound(d[9..17]);
    FromLEBound(d[17..21]);
    FromLEBound(d[21..25]);
  }

  /** Whatever parses is exactly the encoding of the record it parses to. */
  lemma ParseOneExact(d: seq<byte>)
    requires ParseOne(d).Some?
    ensures var r := ParseOne(d).value; WellFormed(r) && Encode(r) <= d
  {
    var r := ParseOne(d).value;
    var n := HEADER_SIZE + |r.image|;
    ParsedFieldsFit(d);
    HeaderExact(d, r);
    BodyExact(d, r);
    ChecksumExact(d, Body(r), Hash(Body(r)), CHECKSUM_SIZE);
  }

  /** A body, followed by its checksum. */
  lemma ChecksumExact(d: seq<byte>, body: seq<byte>, sum: nat, w: nat)
    requires |d| >= |body| + w && body == d[..|body|] && FromLE(d[|body|..|body| + w]) == sum
    ensures body + LE(sum, w) <= d
  {
    var n := |body|;
    RoundTripFromLE(d[n..n + w]);
    assert d[..n + w] == d[..n] + d[n..n + w];
  }

  lemma BodyExact(d: seq<byte>, r: LogRecord)
    requires |d| >= HEADER_SIZE + |r.image| && Header(r) == d[..HEADER_SIZE]
    requires r.image == d[HEADER_SIZE..HEADER_SIZE + |r.image|]
    ensures Body(r) == d[..HEADER_SIZE + |r.image|]
  {
  }

  // ----- torn tails

  /** A record cut short never parses. */
  lemma TornRecord(r: LogRecord, k: nat)
    requires WellFormed(r) && k < |Encode(r)|
    ensures ParseOne(Encode(r)[..k]).None?
  {
    var d := Encode(r)[..k];
    if k >= HEADER_SIZE {
      assert Header(r) <= d;
      ReadFields(r, d);
      KindOfCode(r.kind);
    }
  }

  // ----- corruption

  /** One changed byte anywhere in a record makes it unreadable. */
  lemma CorruptRecord(r: LogRecord, j: nat, b: byte, rest: seq<byte>)
    requires WellFormed(r) && j < |Encode(r)| && Encode(r)[j] != b
    ensures ParseOne(Encode(r)[j := b] + rest).None?
  {
    var e, n := Encode(r), HEADER_SIZE + |r.image|;
    var d := e[j := b] + rest;
    ReadFields(r, e);
    HashFromBound(OFFSET, Body(r));
    Widths();
    RoundTripLE(Hash(Body(r)), CHECKSUM_SIZE);
    assert e[..n] == Body(r) && e[n..n + CHECKSUM_SIZE] == LE(Hash(Body(r)), CHECKSUM_SIZE);
    if 25 <= j < 29 {
      CorruptLength(e, d, j, r);
    } else if j < n {
      assert d[..n] == Body(r)[j := b];
      ChangeSeen(Body(r), j, b);
      assert d[n..n + CHECKSUM_SIZE] == e[n..n + CHECKSUM_SIZE];
      assert d[25..29] == e[25..29];
      KindLen(d, r);
    } else {
      assert d[..n] == e[..n] && d[25..29] == e[25..29] && d[8..9] == e[8..9];
      assert d[n..n + CHECKSUM_SIZE][j - n] == b;
      FromLEInjective(d[n..n + CHECKSUM_SIZE], e[n..n + CHECKSUM_SIZE]);
      KindOfCode(r.kind);
    }
  }

  lemma CorruptLength(e: seq<byte>, d: seq<byte>, j: nat, r: LogRecord)
    requires 25 <= j < 29 <= |e| && |d| >= 29 && d[..25] == e[..25] && d[j] != e[j]
    requires FromLE(e[8..9]) == Code(r.kind) && FromLE(e[25..29]) == ExpectedPayloadLen(r.kind)
    ensures ParseOne(d).None?
  {
    assert d[8..9] == d[..25][8..9] == e[8..9];
    KindOfCode(r.kind);
    assert d[25..29][j - 25] == d[j] && e[25..29][j - 25] == e[j];
    FromLEInjective(d[25..29], e[25..29]);
  }

  /** With the length field intact, a header that still passes its checks describes a record of the same length. */
  lemma KindLen(d: seq<byte>, r: LogRecord)
    requires |d| >= HEADER_SIZE + |r.image| + CHECKSUM_SIZE && FromLE(d[25..29]) == |r.image|
    requires FromLE(d[HEADER_SIZE + |r.image|..HEADER_SIZE + |r.image| + CHECKSUM_SIZE]) != Hash(d[..HEADER_SIZE +
            |r.image|])
    ensures ParseOne(d).None?
  {
  }

  // ----- the record format as a whole

  function LogCodec(): Codec<LogRecord> {
    Codec(Encode, ParseOne, WellFormed)
  }

  /** Records are self-delimiting, cannot be cut short unnoticed, and no single-byte change goes unnoticed. */
  lemma LogCodecSound()
    ensures LogCodec().Sound()
  {
    forall r: LogRecord, rest: seq<byte> | WellFormed(r)
      ensures ParseOne(Encode(r) + rest) == Some(r)
    {
      ParseEncoded(r, rest);
    }
    forall d: seq<byte> | ParseOne(d).Some?
      ensures WellFormed(ParseOne(d).value) && Encode(ParseOne(d).value) <= d
    {
      ParseOneExact(d);
    }
    forall r: LogRecord, k: nat | WellFormed(r) && k < |Encode(r)|
      ensures ParseOne(Encode(r)[..k]).None?
    {
      TornRecord(r, k);
    }
    forall r: LogRecord, j: nat, b: byte, rest: seq<byte> | WellFormed(r) && j < |Encode(r)| && Encode(r)[j] != b
      ensures ParseOne(Poked(Encode(r), j, b, rest)).None?
    {
      CorruptRecord(r, j, b, rest);
    }
  }
}
