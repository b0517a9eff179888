/** Opening and appending to the write-ahead log (src/wal/log_manager.cpp:101-211). */
module LogManagers {
  import opened Wrappers
  import opened Bytes
  import opened Fnv
  import opened Framing
  import opened LogFormat

  ghost function Written(rs: seq<LogRecord>): seq<byte> {
    EncodeAll(LogCodec(), rs)
  }

  ghost function Readable(d: seq<byte>): seq<LogRecord> {
    LogCodecSound();
    ParseAll(LogCodec(), d)
  }

  /** The parse loop of the constructor: stops at the first bytes that are not a record. */
  method Scan(data: seq<byte>) returns (records: seq<LogRecord>, offset: nat)
    ensures records == Readable(data)
    ensures offset <= |data| && data[..offset] == Written(records)
  {
    records, offset := [], 0;
    var r := ScanOne(data, offset);
    while r.Some?
      invariant offset <= |data| && data[..offset] == Written(records) && AllWellFormed(LogCodec(), records)
      invariant r == ParseOne(data[offset..])
      decreases |data| - offset
    {
      Advance(data, offset, records, r.value);
      records := records + [r.value];
      offset := offset + (HEADER_SIZE + |r.value.image| + CHECKSUM_SIZE);
      r := ScanOne(data, offset);
    }
    LogCodecSound();
    ScanStops(LogCodec(), data, offset, records);
  }

  lemma Advance(data: seq<byte>, offset: nat, records: seq<LogRecord>, r: LogRecord)
    requires offset <= |data| && data[..offset] == Written(records) && ParseOne(data[offset..]) == Some(r)
    ensures WellFormed(r) && offset + |Encode(r)| <= |data|
    ensures data[..offset + |Encode(r)|] == Written(records + [r])
  {
    ParseOneExact(data[offset..]);
    EncodeAllSnoc(LogCodec(), records, r);
    assert data[..offset + |Encode(r)|] == data[..offset] + data[offset..][..|Encode(r)|];
  }

  ghost predicate Consecutive(rs: seq<LogRecord>) {
    forall i :: 0 <= i < |rs| - 1 ==> rs[i + 1].lsn == (rs[i].lsn + 1) % U64
  }

  /** The file is exactly the encoding of the records; the next LSN follows the last one. */
  ghost predicate Holds(file: seq<byte>, records: seq<LogRecord>, nextLsn: nat) {
    && file == Written(records) && AllWellFormed(LogCodec(), records)
    && nextLsn < U64 && (records != [] ==> nextLsn == (records[|records| - 1].lsn + 1) % U64)
  }

  class LogManager {
    var file: seq<byte>
    var recordsOnOpen: seq<LogRecord>
    var nextLsn: nat
    ghost var records: seq<LogRecord>

    ghost predicate Valid()
      reads this
    {
      Holds(file, records, nextLsn)
    }

    /** Opening scans the file, drops everything from the first unreadable byte on, and resumes the LSNs. */
    constructor (data: seq<byte>)
      ensures Valid() && recordsOnOpen == records == Readable(data)
      ensures file <= data
      ensures records == [] ==> nextLsn == 1
    {
      var found, offset := Scan(data);
      recordsOnOpen, records, file := found, found, data[..offset];
      nextLsn := if found == [] then 1 else (found[|found| - 1].lsn + 1) % U64;
      new;
      LogCodecSound();
      ParsedWellFormed(LogCodec(), data);
    }

    /** Assigns the next LSN and writes the record behind the last one. */
    method AppendRecord(kind: RecordType, txn: nat, objectId: nat, pageId: nat, payload: seq<byte>) returns (lsn: nat)
      requires Valid() && txn < U64 && objectId < U32 && pageId < U32 && |payload| == ExpectedPayloadLen(kind)
      modifies this
      ensures Valid() && lsn == old(nextLsn) && nextLsn == (lsn + 1) % U64
      ensures records == old(records) + [LogRecord(lsn, kind, txn, objectId, pageId, payload)]
      ensures recordsOnOpen == old(recordsOnOpen)
    {
      lsn := nextLsn;
      nextLsn := (nextLsn + 1) % U64;
      var r := LogRecord(lsn, kind, txn, objectId, pageId, payload);
      var buf := Body(r);
      var checksum := Fnv1a32(buf);
      AppendHolds(file, records, lsn, r);
      file := file + (buf + LE(checksum, CHECKSUM_SIZE));
      records := records + [r];
    }
  }

  lemma WrittenSnoc(records: seq<LogRecord>, r: LogRecord)
    requires AllWellFormed(LogCodec(), records) && WellFormed(r)
    ensures Written(records + [r]) == Written(records) + Encode(r) && AllWellFormed(LogCodec(), records + [r])
  {
    EncodeAllSnoc(LogCodec(), records, r);
  }

  lemma AppendHolds(file: seq<byte>, records: seq<LogRecord>, lsn: nat, r: LogRecord)
    requires Holds(file, records, lsn) && WellFormed(r) && r.lsn == lsn
    ensures Holds(file + Encode(r), records + [r], (lsn + 1) % U64)
  {
    WrittenSnoc(records, r);
  }

  /** The next LSN follows the last record's, so an append keeps LSNs consecutive. */
  lemma AppendConsecutive(file: seq<byte>, records: seq<LogRecord>, lsn: nat, r: LogRecord)
    requires Holds(file, records, lsn) && r.lsn == lsn && Consecutive(records)
    ensures Consecutive(records + [r])
  {
    FollowsOn(records, r);
  }

  lemma FollowsOn(records: seq<LogRecord>, r: LogRecord)
    requires Consecutive(records) && (records != [] ==> r.lsn == (records[|records| - 1].lsn + 1) % U64)
    ensures Consecutive(records + [r])
  {
  }

  /**
   A log cut at any byte by a crash, reopened and appended to: what survives is the
   records wholly inside the cut, and the next opening reads exactly those and the new one.
   */
  lemma ReopenReads(rs: seq<LogRecord>, k: nat, r: LogRecord)
    requires AllWellFormed(LogCodec(), rs) && k <= |Written(rs)| && WellFormed(r)
    ensures var left := Readable(Written(rs)[..k]);
            left == rs[..WholeRecords(LogCodec(), rs, k)] && Readable(Written(left) + Encode(r)) == left + [r]
  {
    LogCodecSound();
    CutThenAppend(LogCodec(), rs, k, r);
  }

  /** The LSN that opening resumes at keeps the surviving records and the new one consecutive. */
  lemma ReopenConsecutive(rs: seq<LogRecord>, k: nat, lsn: nat, r: LogRecord)
    requires Consecutive(rs) && WellFormed(r) && r.lsn == lsn
    requires var left := rs[..WholeRecords(LogCodec(), rs, k)]; Holds(Written(left), left, lsn)
    ensures Consecutive(rs[..WholeRecords(LogCodec(), rs, k)] + [r])
  {
    var left := rs[..WholeRecords(LogCodec(), rs, k)];
    assert Consecutive(left);
    AppendConsecutive(Written(left), left, lsn, r);
  }

  /** Byte j of record i is not `b`. */
  ghost predicate Differs(c: Codec<LogRecord>, rs: seq<LogRecord>, i: nat, j: nat, b: byte) {
    i < |rs| && j < |c.enc(rs[i])| && c.enc(rs[i])[j] != b
  }

  /** Where byte j of record i is in the file. */
  ghost function ByteAt(rs: seq<LogRecord>, i: nat, j: nat): nat
    requires i <= |rs|
  {
    |Written(rs[..i])| + j
  }

  /** Any single-byte change in record i makes opening yield exactly records 0..i-1. */
  lemma CorruptedLog(rs: seq<LogRecord>, i: nat, j: nat, b: byte)
    requires AllWellFormed(LogCodec(), rs) && Differs(LogCodec(), rs, i, j, b)
    ensures ByteAt(rs, i, j) < |Written(rs)| && Readable(Written(rs)[ByteAt(rs, i, j) := b]) == rs[..i]
  {
    CorruptedInside(LogCodec(), rs, i, j, b);
    CorruptedReads(rs, i, j, b, Written(rs)[ByteAt(rs, i, j) := b]);
  }

  lemma {:induction false} CorruptedInside(c: Codec<LogRecord>, rs: seq<LogRecord>, i: nat, j: nat, b: byte)
    requires Differs(c, rs, i, j, b)
    ensures |EncodeAll(c, rs[..i])| + j < |EncodeAll(c, rs)|
  {
    EncodeAllAppend(c, rs[..i], rs[i..]);
    assert rs == rs[..i] + rs[i..];
  }

  lemma CorruptedReads(rs: seq<LogRecord>, i: nat, j: nat, b: byte, d: seq<byte>)
    requires AllWellFormed(LogCodec(), rs) && Differs(LogCodec(), rs, i, j, b) && ByteAt(rs, i, j) < |Written(rs)|
    requires d == Written(rs)[ByteAt(rs, i, j) := b]
    ensures Readable(d) == rs[..i]
  {
    LogCodecSound();
    CorruptedParses(LogCodec(), rs, i, j, b, d);
  }

  lemma CorruptedParses(c: Codec<LogRecord>, rs: seq<LogRecord>, i: nat, j: nat, b: byte, d: seq<byte>)
    requires c.Sound() && AllWellFormed(c, rs) && Differs(c, rs, i, j, b)
    requires |EncodeAll(c, rs[..i])| + j < |EncodeAll(c, rs)| && d == EncodeAll(c, rs)[|EncodeAll(c, rs[..i])| + j := b]
    ensures ParseAll(c, d) == rs[..i]
  {
    CorruptLog(c, rs, i, j, b);
  }
}
