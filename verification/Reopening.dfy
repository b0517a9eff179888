/**
 Appending to the log of an earlier opening. Recovery keeps the log (src/db/database.cpp:35), ids start
 at 1 again (src/txn/transaction_manager.h:223), and the next recovery reads both openings' records as
 one. For which logs is that right, whatever the new opening does and whenever it crashes?
 */
module Reopening {
  import opened Wrappers
  import opened Locks
  import opened Serial
  import opened Recovery
  import opened Engine
  import opened EngineInv
  import opened EngineTheorems
  import opened EngineRuns

  function ObjectsOf(files: Disk): set<nat> {
    set p | p in files :: p.objectId
  }

  /** RunRecovery does not stop: every update it replays is of a page the files have. */
  ghost predicate Succeeds(log: seq<Record>, disk: Disk) {
    forall i :: 0 <= i < |log| ==> Replayable(log[i], CommitSet(log), ObjectsOf(disk), disk)
  }

  /** What a crash leaves: files keep their length. */
  ghost predicate Crashes(files: Disk, labels: seq<Label>, kept: nat, disk: Disk) {
    && IsRun(Initial(files), labels) && CrashLeaves(After(Initial(files), labels), kept, disk)
    && disk.Keys == After(Initial(files), labels).disk.Keys
  }

  /** This run of the new opening, crashing like this, is recovered, to the serial state of its survivors. */
  ghost predicate GoesRight(files: Disk, oldLog: seq<Record>, labels: seq<Label>, kept: nat, disk: Disk)
    requires Crashes(files, labels, kept, disk)
  {
    var s := After(Initial(files), labels);
    && Succeeds(oldLog + s.log[..kept], disk) && Survivors(s, kept) <= |s.history|
    && forall p :: Lookup(Recovered(disk, oldLog + s.log[..kept]), p) ==
        Lookup(ExecAll(files, s.history[..Survivors(s, kept)]), p)
  }

  /** The log may be kept: every run and every crash of the new opening goes right. */
  ghost predicate SafeToKeep(files: Disk, oldLog: seq<Record>) {
    forall labels, kept, disk :: Crashes(files, labels, kept, disk) ==> GoesRight(files, oldLog, labels, kept, disk)
  }

  /** No later update of the same page by the same id. */
  ghost predicate LastOwn(log: seq<Record>, i: nat) {
    && i < |log| && log[i].Update?
    && forall j :: i < j < |log| && log[j].Update? && log[j].txn == log[i].txn ==> log[j].key != log[i].key
  }

  /** No Commit record, and every update left in the log is of a page there is, and what it holds already. */
  ghost predicate Harmless(files: Disk, log: seq<Record>) {
    && (forall i :: 0 <= i < |log| ==> !log[i].Commit?)
    && (forall i :: 0 <= i < |log| && log[i].Update? ==> log[i].key in files)
    && (forall i: nat :: LastOwn(log, i) ==> log[i].image == Lookup(files, log[i].key))
  }

  // ----- redo over two logs

  lemma {:induction false} CommitSetAppend(a: seq<Record>, b: seq<Record>)
    ensures CommitSet(a + b) == CommitSet(a) + CommitSet(b)
  {
    if b == [] {
      assert a + b == a;
    } else {
      var n := |b| - 1;
      CommitSetAppend(a, b[..n]);
      assert b == b[..n] + [b[n]] && a + b == (a + b[..n]) + [b[n]];
      CommitSetSnoc(a + b[..n], b[n]);
      CommitSetSnoc(b[..n], b[n]);
    }
  }

  lemma {:induction false} RedoAppend(d: Disk, a: seq<Record>, b: seq<Record>, winners: set<TxnId>)
    ensures Redo(d, a + b, winners) == Redo(Redo(d, a, winners), b, winners)
  {
    if b == [] {
      assert a + b == a;
    } else {
      var n := |b| - 1;
      RedoAppend(d, a, b[..n], winners);
      assert b == b[..n] + [b[n]] && a + b == (a + b[..n]) + [b[n]];
      RedoSnoc(d, a + b[..n], winners, b[n]);
      RedoSnoc(Redo(d, a, winners), b[..n], winners, b[n]);
    }
  }

  lemma {:induction false} NoCommits(log: seq<Record>)
    requires forall i :: 0 <= i < |log| ==> !log[i].Commit?
    ensures CommitSet(log) == {} && CommitIds(log) == []
  {
    if log != [] {
      NoCommits(log[..|log| - 1]);
    }
  }

  lemma {:induction false} CommitIsIn(log: seq<Record>, i: nat)
    requires i < |log| && log[i].Commit?
    ensures log[i].txn in CommitSet(log)
  {
    if i < |log| - 1 {
      CommitIsIn(log[..|log| - 1], i);
    }
  }

  /** Where the last committed update of a page is. */
  lemma {:induction false} LastCommittedAt(log: seq<Record>, winners: set<TxnId>, p: PageKey) returns (i: nat)
    requires LastCommitted(log, winners, p).Some?
    ensures i < |log| && log[i] == LastCommitted(log, winners, p).value && log[i].Update? && log[i].key == p
    ensures log[i].txn in winners
    ensures forall j :: i < j < |log| && log[j].Update? && log[j].txn in winners ==> log[j].key != p
  {
    var n := |log| - 1;
    if log[n].Update? && log[n].txn in winners && log[n].key == p {
      i := n;
    } else {
      i := LastCommittedAt(log[..n], winners, p);
    }
  }

  // ----- harmless logs are safe

  lemma HarmlessRedo(files: Disk, log: seq<Record>, d: Disk, winners: set<TxnId>, p: PageKey)
    requires Harmless(files, log) && Lookup(d, p) == Lookup(files, p)
    ensures Lookup(Redo(d, log, winners), p) == Lookup(files, p)
  {
    RedoIsLastCommitted(d, log, winners, p);
    if LastCommitted(log, winners, p).Some? {
      var i := LastCommittedAt(log, winners, p);
      assert LastOwn(log, i);
    }
  }

  /** A page ever written back is covered by a surviving committed update. */
  lemma ForcedIsCovered(s: State, kept: nat, disk: Disk, p: PageKey)
    requires Inv(s) && CrashLeaves(s, kept, disk) && p in s.forced
    ensures HasUpdate(s.log[..kept], CommitSet(s.log[..kept]), p)
  {
    var pre := s.log[..s.synced];
    CommitSetPrefix(s.log, s.synced, kept);
    var i :| 0 <= i < |pre| && pre[i].Update? && pre[i].txn in CommitSet(pre) && pre[i].key == p;
    assert s.log[..kept][i] == pre[i];
  }

  lemma HarmlessGoesRight(files: Disk, oldLog: seq<Record>, labels: seq<Label>, kept: nat, disk: Disk)
    requires Harmless(files, oldLog) && Crashes(files, labels, kept, disk)
    ensures GoesRight(files, oldLog, labels, kept, disk)
  {
    var s := After(Initial(files), labels);
    var l := s.log[..kept];
    var w := CommitSet(l);
    RunInv(files, labels);
    InitStays(files, labels);
    RecoveryIsExact(files, labels, kept, disk);
    NoCommits(oldLog);
    CommitSetAppend(oldLog, l);
    assert CommitSet(oldLog + l) == w;
    RedoAppend(disk, oldLog, l, w);
    forall p ensures Lookup(Recovered(disk, oldLog + l), p) == Lookup(Recovered(disk, l), p) {
      if p in s.forced {
        ForcedIsCovered(s, kept, disk, p);
      } else {
        HarmlessRedo(files, oldLog, disk, w, p);
      }
      RedoBase(Redo(disk, oldLog, w), disk, l, w, p);
    }
    BothReplayable(files, oldLog, labels, kept, disk);
  }

  lemma BothReplayable(files: Disk, oldLog: seq<Record>, labels: seq<Label>, kept: nat, disk: Disk)
    requires Harmless(files, oldLog) && Crashes(files, labels, kept, disk)
    ensures Succeeds(oldLog + After(Initial(files), labels).log[..kept], disk)
  {
    RunLogAllocated(files, labels);
    RunFilesGrow(files, labels);
    var l := After(Initial(files), labels).log;
    var log := oldLog + l[..kept];
    forall i | 0 <= i < |log| && log[i].Update? ensures log[i].key in disk {
      assert log[i] == if i < |oldLog| then oldLog[i] else l[i - |oldLog|];
    }
  }

  lemma {:induction false} RunFilesGrow(files: Disk, labels: seq<Label>)
    requires IsRun(Initial(files), labels)
    ensures files.Keys <= After(Initial(files), labels).disk.Keys
  {
    if labels != [] {
      RunFilesGrow(files, labels[..|labels| - 1]);
      FilesGrow(After(Initial(files), labels[..|labels| - 1]), labels[|labels| - 1]);
    }
  }

  // ----- any other log is not

  lemma {:induction false} FreshKey(keys: set<PageKey>) returns (n: nat)
    ensures forall k :: k in keys ==> k.pageId < n
  {
    if keys == {} {
      n := 0;
    } else {
      var k :| k in keys;
      var m := FreshKey(keys - {k});
      n := if k.pageId < m then m else k.pageId + 1;
    }
  }

  /** A run in which transaction `t` has added a page and written it, and nothing has been logged but beginnings. */
  ghost predicate Wrote(files: Disk, labels: seq<Label>, t: TxnId, key: PageKey) {
    && IsRun(Initial(files), labels)
    && var s := After(Initial(files), labels);
       && s.synced == 0 && s.forced == {} && s.init == files && s.history == [] && Active(s, t)
       && s.txns[t].dirtied == {key} && key in s.cache && s.cache[key] == Ones()
       && forall i :: 0 <= i < |s.log| ==> s.log[i].Begin?
  }

  lemma WritesNewPage(files: Disk, t: TxnId, key: PageKey) returns (labels: seq<Label>)
    requires t >= 1 && key !in files
    ensures Wrote(files, labels, t, key)
  {
    var ls := AllBegun(files, t);
    RunSnoc(Initial(files), ls, LNewPage(t, key));
    RunSnoc(Initial(files), ls + [LNewPage(t, key)], LWrite(t, key, Ones()));
    labels := ls + [LNewPage(t, key)] + [LWrite(t, key, Ones())];
  }

  /** The new opening's transaction `t` writes a new page and crashes between its Update and its Commit record. */
  lemma TornCommit(files: Disk, t: TxnId, key: PageKey) returns (labels: seq<Label>, log: seq<Record>)
    requires t >= 1 && key !in files
    ensures Ends(files, labels, log, [])
    ensures |log| > 0 && log[|log| - 1] == Update(t, key, Ones()) && forall i :: 0 <= i < |log| ==> !log[i].Commit?
  {
    var ls := WritesNewPage(files, t, key);
    RunSnoc(Initial(files), ls, LCommitStart(t));
    RunSnoc(Initial(files), ls + [LCommitStart(t)], LLogUpdate(t, key));
    labels := ls + [LCommitStart(t)] + [LLogUpdate(t, key)];
    log := After(Initial(files), labels).log;
  }

  /** The run ends with this log and this history, with nothing synced and no page written back. */
  ghost predicate Ends(files: Disk, labels: seq<Label>, log: seq<Record>, done: seq<Done>) {
    && IsRun(Initial(files), labels)
    && var s := After(Initial(files), labels);
       s.synced == 0 && s.init == files && s.log == log && s.history == done
  }

  /** The new opening's transaction `t` commits without having done anything. */
  lemma EmptyCommit(files: Disk, t: TxnId) returns (labels: seq<Label>, log: seq<Record>)
    requires t >= 1
    ensures Ends(files, labels, log, [Done(t, [])]) && After(Initial(files), labels).disk == files
    ensures |log| > 0 && log[|log| - 1] == Commit(t) && forall i :: 0 <= i < |log| - 1 ==> log[i].Begin?
  {
    var ls := AllBegun(files, t);
    RunSnoc(Initial(files), ls, LCommitStart(t));
    RunSnoc(Initial(files), ls + [LCommitStart(t)], LLogCommit(t));
    labels := ls + [LCommitStart(t)] + [LLogCommit(t)];
    log := After(Initial(files), labels).log;
  }

  /** A Commit record in the log lends its id's committed state to a later transaction that did not commit. */
  lemma CommitIsUnsafe(files: Disk, oldLog: seq<Record>, i: nat)
    requires i < |oldLog| && oldLog[i].Commit? && oldLog[i].txn >= 1
    ensures !SafeToKeep(files, oldLog)
  {
    var t := oldLog[i].txn;
    var n := FreshKey(files.Keys);
    var key := PageKey(0, n);
    assert key !in files;
    var labels, log := TornCommit(files, t, key);
    NoCommits(log);
    CommitIsIn(oldLog, i);
    TornReplayed(After(Initial(files), labels).disk, oldLog, log, t, key);
    GoesWrong(files, oldLog, labels, log, key, []);
  }

  lemma TornReplayed(disk: Disk, oldLog: seq<Record>, log: seq<Record>, t: TxnId, key: PageKey)
    requires t in CommitSet(oldLog) && |log| > 0 && log[|log| - 1] == Update(t, key, Ones())
    ensures Lookup(Recovered(disk, oldLog + log), key) == Ones()
  {
    var m := |log| - 1;
    CommitSetAppend(oldLog, log);
    assert oldLog + log == (oldLog + log[..m]) + [log[m]];
    RedoSnoc(disk, oldLog + log[..m], CommitSet(oldLog + log), log[m]);
  }

  /** A crash right here, with the whole log kept and the files as they are, stops recovery or gives a wrong page. */
  lemma GoesWrong(files: Disk, oldLog: seq<Record>, labels: seq<Label>, log: seq<Record>, p: PageKey, done: seq<Done>)
    requires Ends(files, labels, log, done) && |CommitIds(log)| == |done|
    requires var disk := After(Initial(files), labels).disk;
             || !Succeeds(oldLog + log, disk)
             || Lookup(Recovered(disk, oldLog + log), p) != Lookup(ExecAll(files, done), p)
    ensures !SafeToKeep(files, oldLog)
  {
    var s := After(Initial(files), labels);
    RunInv(files, labels);
    assert s.log[..|s.log|] == s.log && done[..|done|] == done;
    assert Crashes(files, labels, |s.log|, s.disk);
    assert !GoesRight(files, oldLog, labels, |s.log|, s.disk);
  }

  lemma {:induction false} NoNewUpdates(a: seq<Record>, b: seq<Record>, winners: set<TxnId>, p: PageKey)
    requires forall i :: 0 <= i < |b| ==> !b[i].Update?
    ensures LastCommitted(a + b, winners, p) == LastCommitted(a, winners, p)
  {
    if b == [] {
      assert a + b == a;
    } else {
      var n := |b| - 1;
      NoNewUpdates(a, b[..n], winners, p);
      assert (a + b)[..|a + b| - 1] == a + b[..n];
    }
  }

  lemma {:induction false} LastOwnIsLast(log: seq<Record>, i: nat)
    requires LastOwn(log, i)
    ensures LastCommitted(log, {log[i].txn}, log[i].key) == Some(log[i])
  {
    var n := |log| - 1;
    if i < n {
      assert LastOwn(log[..n], i);
      LastOwnIsLast(log[..n], i);
    }
  }

  /** An update of a page that there is not stops recovery once any later transaction with its id commits. */
  lemma MissingIsUnsafe(files: Disk, oldLog: seq<Record>, i: nat)
    requires i < |oldLog| && oldLog[i].Update? && oldLog[i].key !in files && oldLog[i].txn >= 1
    ensures !SafeToKeep(files, oldLog)
  {
    var t := oldLog[i].txn;
    var labels, log := EmptyCommit(files, t);
    CommitIdsOne(log, t);
    CommitSetAppend(oldLog, log);
    assert (oldLog + log)[i] == oldLog[i];
    assert !Replayable(oldLog[i], CommitSet(oldLog + log), ObjectsOf(files), files);
    GoesWrong(files, oldLog, labels, log, oldLog[i].key, [Done(t, [])]);
  }

  /** An update left uncommitted is replayed once any later transaction with its id commits. */
  lemma OrphanIsUnsafe(files: Disk, oldLog: seq<Record>, i: nat)
    requires forall k :: 0 <= k < |oldLog| ==> !oldLog[k].Commit?
    requires LastOwn(oldLog, i) && oldLog[i].txn >= 1 && oldLog[i].image != Lookup(files, oldLog[i].key)
    ensures !SafeToKeep(files, oldLog)
  {
    var t := oldLog[i].txn;
    var labels, log := EmptyCommit(files, t);
    OrphanReplayed(files, oldLog, i, log);
    CommitIdsOne(log, t);
    EmptyTurn(files, t);
    GoesWrong(files, oldLog, labels, log, oldLog[i].key, [Done(t, [])]);
  }

  lemma CommitIdsOne(log: seq<Record>, t: TxnId)
    requires |log| > 0 && log[|log| - 1] == Commit(t) && forall i :: 0 <= i < |log| - 1 ==> log[i].Begin?
    ensures CommitSet(log) == {t} && CommitIds(log) == [t]
  {
    NoCommits(log[..|log| - 1]);
  }

  lemma OrphanReplayed(files: Disk, oldLog: seq<Record>, i: nat, log: seq<Record>)
    requires (forall k :: 0 <= k < |oldLog| ==> !oldLog[k].Commit?) && LastOwn(oldLog, i)
    requires |log| > 0 && log[|log| - 1] == Commit(oldLog[i].txn) && forall k :: 0 <= k < |log| - 1 ==> log[k].Begin?
    ensures Lookup(Recovered(files, oldLog + log), oldLog[i].key) == oldLog[i].image
  {
    var t, p := oldLog[i].txn, oldLog[i].key;
    NoCommits(oldLog);
    CommitIdsOne(log, t);
    CommitSetAppend(oldLog, log);
    assert CommitSet(oldLog + log) == {t};
    LastOwnIsLast(oldLog, i);
    NoNewUpdates(oldLog, log, {t}, p);
    RedoIsLastCommitted(files, oldLog + log, {t}, p);
  }

  lemma EmptyTurn(files: Disk, t: TxnId)
    ensures ExecAll(files, [Done(t, [])]) == files
  {
    assert [Done(t, [])][..0] == [];
  }

  /**
   A log may be kept over an opening if and only if it holds no Commit record and no update that differs
   from what its page holds, or whose page there is not: all can be read from the records and the files at the opening.
   */
  lemma KeptLogIsSafeIff(files: Disk, oldLog: seq<Record>)
    requires forall i :: 0 <= i < |oldLog| ==> oldLog[i].txn >= 1
    ensures SafeToKeep(files, oldLog) <==> Harmless(files, oldLog)
  {
    if Harmless(files, oldLog) {
      forall labels, kept, disk | Crashes(files, labels, kept, disk)
        ensures GoesRight(files, oldLog, labels, kept, disk)
      {
        HarmlessGoesRight(files, oldLog, labels, kept, disk);
      }
    } else if exists i :: 0 <= i < |oldLog| && oldLog[i].Commit? {
      var i :| 0 <= i < |oldLog| && oldLog[i].Commit?;
      CommitIsUnsafe(files, oldLog, i);
    } else if exists i :: 0 <= i < |oldLog| && oldLog[i].Update? && oldLog[i].key !in files {
      var i :| 0 <= i < |oldLog| && oldLog[i].Update? && oldLog[i].key !in files;
      MissingIsUnsafe(files, oldLog, i);
    } else {
      var i: nat :| LastOwn(oldLog, i) && oldLog[i].image != Lookup(files, oldLog[i].key);
      OrphanIsUnsafe(files, oldLog, i);
    }
  }

  // ----- logs that an opening has written

  ghost predicate IdsPositive(s: State) {
    && s.nextTxn >= 1 && (forall t :: t in s.txns ==> t >= 1)
    && forall i :: 0 <= i < |s.log| ==> s.log[i].txn >= 1
  }

  lemma WorkTxns(s: State, l: Label)
    requires Enabled(s, l) && IsWork(l)
    ensures Do(s, l).txns.Keys <= s.txns.Keys + {s.nextTxn} && Do(s, l).nextTxn >= s.nextTxn
  {
  }

  lemma EndTxns(s: State, l: Label)
    requires Enabled(s, l) && !IsWork(l)
    ensures Do(s, l).txns.Keys <= s.txns.Keys && Do(s, l).nextTxn == s.nextTxn
  {
  }

  ghost predicate AtMostOneMore(log: seq<Record>, after: seq<Record>) {
    after == log || (|after| == |log| + 1 && after[..|log|] == log && after[|log|].txn >= 1)
  }

  lemma WorkLog(s: State, l: Label)
    requires IdsPositive(s) && Enabled(s, l) && IsWork(l)
    ensures AtMostOneMore(s.log, Do(s, l).log)
  {
  }

  lemma EndLog(s: State, l: Label)
    requires IdsPositive(s) && Enabled(s, l) && !IsWork(l)
    ensures AtMostOneMore(s.log, Do(s, l).log)
  {
  }

  lemma IdsStep(s: State, l: Label)
    requires IdsPositive(s) && Enabled(s, l)
    ensures IdsPositive(Do(s, l))
  {
    if IsWork(l) {
      WorkTxns(s, l);
      WorkLog(s, l);
    } else {
      EndTxns(s, l);
      EndLog(s, l);
    }
    var log := Do(s, l).log;
    forall i | 0 <= i < |log| ensures log[i].txn >= 1 {
      if i < |s.log| { assert log[i] == log[..|s.log|][i]; }
    }
    forall t | t in Do(s, l).txns ensures t >= 1 {
      assert t in Do(s, l).txns.Keys;
    }
  }

  lemma {:induction false} RunIdsPositive(files: Disk, labels: seq<Label>)
    requires IsRun(Initial(files), labels)
    ensures IdsPositive(After(Initial(files), labels))
    decreases |labels|
  {
    if labels != [] {
      RunIdsPositive(files, labels[..|labels| - 1]);
      IdsStep(After(Initial(files), labels[..|labels| - 1]), labels[|labels| - 1]);
    }
  }

  /** A crashed opening's log may be kept exactly when it committed nothing and logged nothing new. */
  lemma ReopenedLogIsSafeIff(files: Disk, labels: seq<Label>, kept: nat, disk: Disk)
    requires IsRun(Initial(files), labels) && CrashLeaves(After(Initial(files), labels), kept, disk)
    ensures var log := After(Initial(files), labels).log[..kept];
            SafeToKeep(Recovered(disk, log), log) <==> Harmless(Recovered(disk, log), log)
  {
    RunIdsPositive(files, labels);
    var log := After(Initial(files), labels).log[..kept];
    KeptLogIsSafeIff(Recovered(disk, log), log);
  }
}
