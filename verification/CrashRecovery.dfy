/**
 From the engine's log to the bytes of the log file and back through a crash: the parse loop
 (src/wal/log_manager.cpp) and redo (src/wal/recovery.cpp) together.
 */
module CrashRecovery {
  import opened Wrappers
  import opened Bags
  import opened Bytes
  import Locks
  import Serial
  import R = Recovery
  import Engine
  import EngineTheorems
  import opened Framing
  import opened LogFormat
  import opened LogManagers

  const NO_ID: nat := 0xFFFF_FFFF

  /** A record of the engine's log as AppendBegin, AppendUpdate, AppendCommit and AppendAbort write it. */
  function OnDisk(r: R.Record, lsn: nat): LogRecord {
    match r
    case Begin(t) => LogRecord(lsn, BeginType, t, NO_ID, NO_ID, [])
    case Update(t, key, image) => LogRecord(lsn, UpdateType, t, key.objectId, key.pageId, image)
    case Commit(t) => LogRecord(lsn, CommitType, t, NO_ID, NO_ID, [])
    case Abort(t) => LogRecord(lsn, AbortType, t, NO_ID, NO_ID, [])
  }

  /** What recovery sees of a record it read. */
  function FromDisk(r: LogRecord): R.Record {
    match r.kind
    case BeginType => R.Begin(r.txn)
    case UpdateType => R.Update(r.txn, Locks.PageKey(r.objectId, r.pageId), r.image)
    case CommitType => R.Commit(r.txn)
    case AbortType => R.Abort(r.txn)
  }

  lemma OnDiskRoundTrip(r: R.Record, lsn: nat)
    ensures FromDisk(OnDisk(r, lsn)) == r
  {
  }

  /** The log with consecutive LSNs from 1. */
  ghost function DiskLog(log: seq<R.Record>): (rs: seq<LogRecord>)
    ensures |rs| == |log| && forall i :: 0 <= i < |log| ==> rs[i] == OnDisk(log[i], i + 1)
  {
    seq(|log|, i requires 0 <= i < |log| => OnDisk(log[i], i + 1))
  }

  /** Ids and LSNs fit their fields and images are whole pages. */
  ghost predicate Encodable(log: seq<R.Record>) {
    forall i :: 0 <= i < |log| ==> WellFormed(OnDisk(log[i], i + 1))
  }

  ghost function Reread(d: seq<byte>): seq<R.Record> {
    Map(FromDisk, Readable(d))
  }

  /** Cut behind the first n records' bytes, at least n records survive. */
  lemma CutKeeps(c: Codec<LogRecord>, rs: seq<LogRecord>, n: nat, k: nat)
    requires n <= |rs| && |EncodeAll(c, rs[..n])| <= k
    ensures n <= WholeRecords(c, rs, k)
  {
    var m := WholeRecords(c, rs, k);
    WholeRecordsIs(c, rs, k);
    if m < n {
      assert rs[..n] == rs[..m + 1] + rs[m + 1..n];
      EncodeAllAppend(c, rs[..m + 1], rs[m + 1..n]);
    }
  }

  lemma DiskLogPrefix(log: seq<R.Record>, n: nat)
    requires n <= |log|
    ensures DiskLog(log)[..n] == DiskLog(log[..n])
  {
  }

  /** Reopening the cut file gives back exactly the records wholly inside the cut. */
  lemma RereadIsPrefix(log: seq<R.Record>, k: nat)
    requires Encodable(log) && k <= |Written(DiskLog(log))|
    ensures Reread(Written(DiskLog(log))[..k]) == log[..WholeRecords(LogCodec(), DiskLog(log), k)]
  {
    var rs := DiskLog(log);
    LogCodecSound();
    CutLog(LogCodec(), rs, k);
    var m := WholeRecords(LogCodec(), rs, k);
    MapBack(log, m);
  }

  lemma MapBack(log: seq<R.Record>, m: nat)
    requires m <= |log|
    ensures Map(FromDisk, DiskLog(log)[..m]) == log[..m]
  {
    var rs := DiskLog(log)[..m];
    forall i | 0 <= i < m ensures Map(FromDisk, rs)[i] == log[..m][i] {
      OnDiskRoundTrip(log[i], i + 1);
    }
  }

  /**
   Crash at any point of any run, with the log file cut at any byte behind its fsynced part and anything
   at all on pages that were ever written back: reopening and recovering leaves every page as the serial
   execution of the transactions whose Commit record lies inside the cut, and these include every
   transaction whose Commit call returned.
   */
  lemma ByteCrashRecovery(files: Serial.Disk, labels: seq<Engine.Label>, k: nat, disk: Serial.Disk)
    requires Engine.IsRun(Engine.Initial(files), labels)
    requires var s := Engine.After(Engine.Initial(files), labels);
             && s.synced <= |s.log| && Encodable(s.log)
             && |Written(DiskLog(s.log[..s.synced]))| <= k <= |Written(DiskLog(s.log))|
             && forall p :: p !in s.forced ==> Serial.Lookup(disk, p) == Serial.Lookup(s.init, p)
    ensures var s := Engine.After(Engine.Initial(files), labels);
            var survivors := |R.CommitIds(Reread(Written(DiskLog(s.log))[..k]))|;
            && survivors <= |s.history|
            && (forall p :: Serial.Lookup(R.Recovered(disk, Reread(Written(DiskLog(s.log))[..k])), p)
                         == Serial.Lookup(Serial.ExecAll(files, s.history[..survivors]), p))
            && (forall t :: t in s.returned ==> exists i :: 0 <= i < survivors && s.history[i].txn == t)
  {
    var s := Engine.After(Engine.Initial(files), labels);
    var kept := WholeRecords(LogCodec(), DiskLog(s.log), k);
    DiskLogPrefix(s.log, s.synced);
    CutKeeps(LogCodec(), DiskLog(s.log), s.synced, k);
    RereadIsPrefix(s.log, k);
    EngineTheorems.RecoveryIsExact(files, labels, kept, disk);
  }

  /** The records recovery is given. */
  method RecordsForRecovery(log: LogManager) returns (records: seq<R.Record>)
    ensures records == Map(FromDisk, log.recordsOnOpen)
  {
    records := [];
    var i := 0;
    while i < |log.recordsOnOpen|
      invariant 0 <= i <= |log.recordsOnOpen| && |records| == i
      invariant forall j :: 0 <= j < i ==> records[j] == FromDisk(log.recordsOnOpen[j])
    {
      records := records + [FromDisk(log.recordsOnOpen[i])];
      i := i + 1;
    }
  }

  /** Reopening after a crash: open the log, then recover. It succeeds with the serial state. */
  method ReopenAndRecover(data: seq<byte>, objects: set<nat>, disk: Serial.Disk,
                          ghost files: Serial.Disk, ghost labels: seq<Engine.Label>, ghost k: nat)
    returns (r: Result<nat, R.RecoveryError>, after: Serial.Disk)
    requires Engine.IsRun(Engine.Initial(files), labels)
    requires var s := Engine.After(Engine.Initial(files), labels);
             && s.synced <= |s.log| && Encodable(s.log)
             && |Written(DiskLog(s.log[..s.synced]))| <= k <= |Written(DiskLog(s.log))| &&
                 data == Written(DiskLog(s.log))[..k]
             && (forall p :: p !in s.forced ==> Serial.Lookup(disk, p) == Serial.Lookup(s.init, p))
             && EngineTheorems.FilesKnown(s, objects, disk)
    ensures var s := Engine.After(Engine.Initial(files), labels);
            var survivors := |R.CommitIds(Reread(data))|;
            && r.Ok? && survivors <= |s.history|
            && (forall p :: Serial.Lookup(after, p) == Serial.Lookup(Serial.ExecAll(files, s.history[..survivors]), p))
            && (forall t :: t in s.returned ==> exists i :: 0 <= i < survivors && s.history[i].txn == t)
  {
    ghost var s := Engine.After(Engine.Initial(files), labels);
    ghost var kept := WholeRecords(LogCodec(), DiskLog(s.log), k);
    DiskLogPrefix(s.log, s.synced);
    CutKeeps(LogCodec(), DiskLog(s.log), s.synced, k);
    RereadIsPrefix(s.log, k);
    var log := new LogManager(data);
    var records := RecordsForRecovery(log);
    assert records == s.log[..kept];
    r, after := EngineTheorems.RecoverAfterCrash(records, objects, disk, files, labels);
  }
}
