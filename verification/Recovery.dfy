/** Redo recovery over a list of log records (src/wal/recovery.cpp). */
module Recovery {
  import opened Wrappers
  import opened Locks
  import opened Serial

  datatype Record =
    | Begin(txn: TxnId)
    | Update(txn: TxnId, key: PageKey, image: Image)
    | Commit(txn: TxnId)
    | Abort(txn: TxnId)

  /** The transactions with a Commit record, in log order. */
  function CommitIds(log: seq<Record>): seq<TxnId> {
    if log == [] then []
    else
      var r := log[|log| - 1];
      CommitIds(log[..|log| - 1]) + if r.Commit? then [r.txn] else []
  }

  function CommitSet(log: seq<Record>): set<TxnId> {
    if log == [] then {} else CommitSet(log[..|log| - 1]) + if log[|log| - 1].Commit? then {log[|log| - 1].txn} else {}
  }

  /** Every Update of a transaction in `winners`, written in log order. */
  function Redo(d: Disk, log: seq<Record>, winners: set<TxnId>): Disk {
    if log == [] then d
    else
      var d1 := Redo(d, log[..|log| - 1], winners);
      var r := log[|log| - 1];
      if r.Update? && r.txn in winners then d1[r.key := r.image] else d1
  }

  function Recovered(d: Disk, log: seq<Record>): Disk {
    Redo(d, log, CommitSet(log))
  }

  function Replayed(log: seq<Record>, winners: set<TxnId>): nat {
    if log == [] then 0
    else Replayed(log[..|log| - 1], winners) + if log[|log| - 1].Update? && log[|log| - 1].txn in winners then 1 else 0
  }

  datatype RecoveryError = UnknownObject(objectId: nat) | PageBeyondEnd(key: PageKey)

  ghost predicate Replayable(r: Record, winners: set<TxnId>, objects: set<nat>, disk: Disk) {
    r.Update? && r.txn in winners ==> r.key.objectId in objects && r.key in disk
  }

  /** Recovery stops at record i; the updates before it have been written. */
  ghost predicate FirstFailure(records: seq<Record>, objects: set<nat>, disk: Disk, i: nat) {
    && i < |records| && !Replayable(records[i], CommitSet(records), objects, disk)
    && forall j :: 0 <= j < i ==> Replayable(records[j], CommitSet(records), objects, disk)
  }

  /** Pass 1: the ids with a Commit record. */
  method CollectCommitted(records: seq<Record>) returns (committed: set<TxnId>)
    ensures committed == CommitSet(records)
  {
    committed := {};
    var i := 0;
    while i < |records|
      invariant 0 <= i <= |records|
      invariant committed == CommitSet(records[..i])
    {
      CommitSetSnoc(records[..i], records[i]);
      assert records[..i + 1] == records[..i] + [records[i]];
      if records[i].Commit? { committed := committed + {records[i].txn}; }
      i := i + 1;
    }
    assert records[..i] == records;
  }

  /**
   RunRecovery: the second pass writes every committed update, in order. It stops on the first one
   whose object or page the data files do not have.
   */
  method RunRecovery(records: seq<Record>, objects: set<nat>, disk: Disk)
    returns (r: Result<nat, RecoveryError>, after: Disk)
    ensures r.Ok? <==> forall i :: 0 <= i < |records| ==> Replayable(records[i], CommitSet(records), objects, disk)
    ensures r.Ok? ==> after == Recovered(disk, records) && r.value == Replayed(records, CommitSet(records))
    ensures r.Err? ==>
            exists i: nat :: FirstFailure(records, objects, disk, i) &&
                after == Redo(disk, records[..i], CommitSet(records))
  {
    var committed := CollectCommitted(records);
    after := disk;
    var replayed := 0;
    var i := 0;
    while i < |records|
      invariant 0 <= i <= |records|
      invariant after == Redo(disk, records[..i], committed) && after.Keys == disk.Keys
      invariant replayed == Replayed(records[..i], committed)
      invariant forall j :: 0 <= j < i ==> Replayable(records[j], committed, objects, disk)
    {
      var rec := records[i];
      RedoSnoc(disk, records[..i], committed, rec);
      ReplayedSnoc(records[..i], committed, rec);
      assert records[..i + 1] == records[..i] + [rec];
      if rec.Update? && rec.txn in committed {
        if rec.key.objectId !in objects {
          assert !Replayable(records[i], committed, objects, disk);
          assert FirstFailure(records, objects, disk, i);
          return Err(UnknownObject(rec.key.objectId)), after;
        }
        if rec.key !in after {
          assert !Replayable(records[i], committed, objects, disk);
          assert FirstFailure(records, objects, disk, i);
          return Err(PageBeyondEnd(rec.key)), after;
        }
        after := after[rec.key := rec.image];
        replayed := replayed + 1;
      }
      i := i + 1;
    }
    assert records[..i] == records;
    return Ok(replayed), after;
  }

  lemma ReplayedSnoc(log: seq<Record>, winners: set<TxnId>, r: Record)
    ensures Replayed(log + [r], winners) == Replayed(log, winners) + if r.Update? && r.txn in winners then 1 else 0
  {
    assert (log + [r])[..|log|] == log;
  }

  lemma CommitSetSnoc(log: seq<Record>, r: Record)
    ensures CommitSet(log + [r]) == CommitSet(log) + if r.Commit? then {r.txn} else {}
    ensures CommitIds(log + [r]) == CommitIds(log) + if r.Commit? then [r.txn] else []
  {
    assert (log + [r])[..|log|] == log;
  }

  // ----- what Redo does to one page

  /** Some update of a winner writes `p`. */
  ghost predicate HasUpdate(log: seq<Record>, winners: set<TxnId>, p: PageKey) {
    exists i :: 0 <= i < |log| && log[i].Update? && log[i].txn in winners && log[i].key == p
  }

  ghost predicate NoUpdateBy(log: seq<Record>, t: TxnId, p: PageKey) {
    forall i :: 0 <= i < |log| && log[i].Update? && log[i].key == p ==> log[i].txn != t
  }

  /** The last Update record for `p`, by anyone. */
  function LastUpdate(log: seq<Record>, p: PageKey): Option<Record> {
    if log == [] then None
    else
      var r := log[|log| - 1];
      if r.Update? && r.key == p then Some(r) else LastUpdate(log[..|log| - 1], p)
  }

  lemma RedoSnoc(d: Disk, log: seq<Record>, winners: set<TxnId>, r: Record)
    ensures Redo(d, log + [r], winners)
         == var d1 := Redo(d, log, winners); if r.Update? && r.txn in winners then d1[r.key := r.image] else d1
  {
    assert (log + [r])[..|log|] == log;
  }

  /** Two disks recover to the same page once some committed update covers it, or if they agreed on it. */
  lemma {:induction false} RedoBase(d: Disk, e: Disk, log: seq<Record>, winners: set<TxnId>, p: PageKey)
    requires HasUpdate(log, winners, p) || Lookup(d, p) == Lookup(e, p)
    ensures Lookup(Redo(d, log, winners), p) == Lookup(Redo(e, log, winners), p)
  {
    if log != [] {
      var n := |log| - 1;
      var r := log[n];
      if r.Update? && r.txn in winners && r.key == p {
      } else {
        if HasUpdate(log, winners, p) {
          var i :| 0 <= i < |log| && log[i].Update? && log[i].txn in winners && log[i].key == p;
          assert log[..n][i] == log[i];
        }
        RedoBase(d, e, log[..n], winners, p);
      }
    }
  }

  /** Letting one more transaction win changes only the pages it logged. */
  lemma {:induction false} RedoUntouched(d: Disk, log: seq<Record>, winners: set<TxnId>, t: TxnId, p: PageKey)
    requires NoUpdateBy(log, t, p)
    ensures Lookup(Redo(d, log, winners + {t}), p) == Lookup(Redo(d, log, winners), p)
  {
    if log != [] {
      var n := |log| - 1;
      assert forall i :: 0 <= i < n ==> log[..n][i] == log[i];
      RedoUntouched(d, log[..n], winners, t, p);
      assert log[n].Update? && log[n].key == p ==> log[n].txn != t;
    }
  }

  /** The last Update of `p` by a winner. */
  function LastCommitted(log: seq<Record>, winners: set<TxnId>, p: PageKey): Option<Record> {
    if log == [] then None
    else
      var r := log[|log| - 1];
      if r.Update? && r.txn in winners && r.key == p then Some(r) else LastCommitted(log[..|log| - 1], winners, p)
  }

  /** Every page comes back with the image of the last winner's update of it, and as it was if there is none. */
  lemma {:induction false} RedoIsLastCommitted(d: Disk, log: seq<Record>, winners: set<TxnId>, p: PageKey)
    ensures var l := LastCommitted(log, winners, p);
            && (l.Some? ==> l.value.Update?)
            && Lookup(Redo(d, log, winners), p) == if l.Some? then l.value.image else Lookup(d, p)
  {
    if log != [] {
      RedoIsLastCommitted(d, log[..|log| - 1], winners, p);
    }
  }

  lemma {:induction false} RedoLast(d: Disk, log: seq<Record>, winners: set<TxnId>, p: PageKey)
    requires LastUpdate(log, p).Some? && LastUpdate(log, p).value.Update? && LastUpdate(log, p).value.txn in winners
    ensures Lookup(Redo(d, log, winners), p) == LastUpdate(log, p).value.image
  {
    if log != [] {
      var n := |log| - 1;
      if !(log[n].Update? && log[n].key == p) {
        RedoLast(d, log[..n], winners, p);
      }
    }
  }

  lemma LastUpdateSnoc(log: seq<Record>, r: Record, p: PageKey)
    ensures LastUpdate(log + [r], p) == if r.Update? && r.key == p then Some(r) else LastUpdate(log, p)
  {
    assert (log + [r])[..|log|] == log;
  }

  /** Recovering twice is recovering once. */
  lemma RecoveryIdempotent(d: Disk, log: seq<Record>, p: PageKey)
    ensures Lookup(Recovered(Recovered(d, log), log), p) == Lookup(Recovered(d, log), p)
  {
    var w := CommitSet(log);
    if HasUpdate(log, w, p) {
      RedoBase(Recovered(d, log), d, log, w, p);
    } else {
      RedoNone(d, log, w, p);
      RedoBase(Recovered(d, log), d, log, w, p);
    }
  }

  lemma {:induction false} RedoNone(d: Disk, log: seq<Record>, winners: set<TxnId>, p: PageKey)
    requires !HasUpdate(log, winners, p)
    ensures Lookup(Redo(d, log, winners), p) == Lookup(d, p)
  {
    if log != [] {
      var n := |log| - 1;
      assert forall i :: 0 <= i < n ==> log[..n][i] == log[i];
      RedoNone(d, log[..n], winners, p);
      assert log[n].Update? && log[n].txn in winners ==> log[n].key != p;
    }
  }
}
