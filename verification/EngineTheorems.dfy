/** Safety over whole runs: serializability, exact recovery, abort, and wait-die progress. */
module EngineTheorems {
  import opened Wrappers
  import opened Locks
  import opened Serial
  import opened Recovery
  import opened Engine
  import opened EngineInv
  import opened EngineCommit

  lemma {:induction false} RunInv(files: Disk, labels: seq<Label>)
    requires IsRun(Initial(files), labels)
    ensures Inv(After(Initial(files), labels))
    decreases |labels|
  {
    if labels == [] {
      InitialInv(files);
    } else {
      RunInv(files, labels[..|labels| - 1]);
      StepInv(After(Initial(files), labels[..|labels| - 1]), labels[|labels| - 1]);
    }
  }

  /**
   Strict two-phase locking: in every run the committed transactions, executed one after the other
   in Commit-record order, read exactly what they read; and a page no live transaction is changing
   shows the outcome of that serial execution.
   */
  lemma RunsAreSerializable(files: Disk, labels: seq<Label>)
    requires IsRun(Initial(files), labels)
    ensures var s := After(Initial(files), labels);
            && Serializable(s.init, s.history)
            && s.init == files
            && |CommitIds(s.log)| == |s.history|
            && (forall i :: 0 <= i < |s.history| ==> s.history[i].txn == CommitIds(s.log)[i])
            && (forall t :: t in s.txns && s.txns[t].phase.Running? ==> Replays(SerialState(s), s.txns[t].ops))
            && (forall p :: !IsUnsettled(s, p) ==> View(s, p) == Lookup(SerialState(s), p))
  {
    RunInv(files, labels);
    var s := After(Initial(files), labels);
    forall t | t in s.txns && s.txns[t].phase.Running?
      ensures Replays(SerialState(s), s.txns[t].ops)
    {
      assert TxnOk(s, t, s.txns[t]);
    }
    InitStays(files, labels);
  }

  lemma {:induction false} InitStays(files: Disk, labels: seq<Label>)
    requires IsRun(Initial(files), labels)
    ensures After(Initial(files), labels).init == files
    decreases |labels|
  {
    if labels != [] {
      var before := labels[..|labels| - 1];
      InitStays(files, before);
    }
  }

  /**
   A crash loses the cache and any unsynced tail of the log. Pages that were never written back are
   as they were; pages that were may hold anything at all, torn or stale.
   */
  ghost predicate CrashLeaves(s: State, kept: nat, disk: Disk) {
    && s.synced <= kept <= |s.log|
    && forall p :: p !in s.forced ==> Lookup(disk, p) == Lookup(s.init, p)
  }

  /** How many transactions have their Commit record among the first `kept` records. */
  ghost function Survivors(s: State, kept: nat): nat
    requires kept <= |s.log|
  {
    |CommitIds(s.log[..kept])|
  }

  /**
   Recovery of what the crash left gives the serial state of the transactions whose Commit record survived,
   and every transaction whose Commit call returned is one of them.
   */
  ghost predicate RecoversTo(s: State, kept: nat, disk: Disk)
    requires kept <= |s.log|
  {
    && Survivors(s, kept) <= |s.history|
    && (forall p ::
          Lookup(Recovered(disk, s.log[..kept]), p) == Lookup(ExecAll(s.init, s.history[..Survivors(s, kept)]), p))
    && (forall t :: t in s.returned ==> exists i :: 0 <= i < Survivors(s, kept) && s.history[i].txn == t)
  }

  lemma InvRecovers(s: State, kept: nat, disk: Disk)
    requires Inv(s) && CrashLeaves(s, kept, disk)
    ensures RecoversTo(s, kept, disk)
  {
    var l, k := s.log[..kept], Survivors(s, kept);
    assert PrefixOk(s.init, s.log, s.history, kept);
    forall p
      ensures Lookup(Recovered(disk, l), p) == Lookup(ExecAll(s.init, s.history[..k]), p)
    {
      RecoveredPage(s, kept, disk, p);
    }
    forall t | t in s.returned
      ensures exists i :: 0 <= i < k && s.history[i].txn == t
    {
      CommitSetPrefix(s.log, s.synced, kept);
      CommitIdsCover(l, t);
      CommitSetPrefix(s.log, kept, |s.log|);
      assert s.log[..|s.log|] == s.log;
      var i :| 0 <= i < |CommitIds(l)| && CommitIds(l)[i] == t;
      assert s.history[i].txn == t;
    }
  }

  /** Crash at any point of any run: recovery is exact. */
  lemma RecoveryIsExact(files: Disk, labels: seq<Label>, kept: nat, disk: Disk)
    requires IsRun(Initial(files), labels) && CrashLeaves(After(Initial(files), labels), kept, disk)
    ensures var s := After(Initial(files), labels); s.init == files && RecoversTo(s, kept, disk)
  {
    RunInv(files, labels);
    InitStays(files, labels);
    InvRecovers(After(Initial(files), labels), kept, disk);
  }

  lemma RecoveredPage(s: State, kept: nat, disk: Disk, p: PageKey)
    requires Inv(s) && CrashLeaves(s, kept, disk)
    ensures Lookup(Recovered(disk, s.log[..kept]), p) == Lookup(Recovered(s.init, s.log[..kept]), p)
  {
    var l := s.log[..kept];
    if p in s.forced {
      var l0 := s.log[..s.synced];
      CommitSetPrefix(s.log, s.synced, kept);
      var i :| 0 <= i < |l0| && l0[i].Update? && l0[i].txn in CommitSet(l0) && l0[i].key == p;
      assert l[i] == l0[i];
    }
    RedoBase(disk, s.init, l, CommitSet(l), p);
  }

  lemma {:induction false} CommitIdsCover(log: seq<Record>, t: TxnId)
    ensures t in CommitSet(log) ==> exists i :: 0 <= i < |CommitIds(log)| && CommitIds(log)[i] == t
  {
    if log != [] && t in CommitSet(log) {
      var n := |log| - 1;
      CommitIdsCover(log[..n], t);
      if log[n] == Commit(t) {
        assert CommitIds(log)[|CommitIds(log)| - 1] == t;
      } else {
        var i :| 0 <= i < |CommitIds(log[..n])| && CommitIds(log[..n])[i] == t;
        assert CommitIds(log)[i] == t;
      }
    }
  }

  // ----- recovery succeeds

  /** Every Update record names a page of the data files. */
  ghost predicate LogAllocated(s: State) {
    forall i :: 0 <= i < |s.log| && s.log[i].Update? ==> s.log[i].key in s.disk
  }

  lemma FilesGrow(s: State, l: Label)
    requires Enabled(s, l)
    ensures s.disk.Keys <= Do(s, l).disk.Keys
  {
  }

  lemma AllocatedStep(s: State, l: Label)
    requires LocksOk(s) && LogAllocated(s) && Enabled(s, l)
    ensures LogAllocated(Do(s, l))
  {
    FilesGrow(s, l);
    if l.LLogUpdate? {
      assert l.key in s.disk;
    }
  }

  lemma {:induction false} RunLogAllocated(files: Disk, labels: seq<Label>)
    requires IsRun(Initial(files), labels)
    ensures LogAllocated(After(Initial(files), labels))
    decreases |labels|
  {
    if labels != [] {
      var before := labels[..|labels| - 1];
      RunLogAllocated(files, before);
      RunInv(files, before);
      AllocatedStep(After(Initial(files), before), labels[|labels| - 1]);
    }
  }

  /** The data files keep their length over a crash, and the catalog knows every object with pages. */
  ghost predicate FilesKnown(s: State, objects: set<nat>, disk: Disk) {
    disk.Keys == s.disk.Keys && forall p :: p in s.disk ==> p.objectId in objects
  }

  /** After a crash no surviving record can stop recovery. */
  lemma SurvivorsReplayable(files: Disk, labels: seq<Label>, kept: nat, objects: set<nat>, disk: Disk)
    requires IsRun(Initial(files), labels)
    requires var s := After(Initial(files), labels); kept <= |s.log| && FilesKnown(s, objects, disk)
    ensures var l := After(Initial(files), labels).log[..kept];
            forall i :: 0 <= i < kept ==> Replayable(l[i], CommitSet(l), objects, disk)
  {
    RunLogAllocated(files, labels);
  }

  /**
   Running recovery on what a crash left, at any point of any run: it succeeds, and the files are the
   serial state of the transactions whose Commit record survived, all returned ones among them.
   */
  method RecoverAfterCrash(records: seq<Record>, objects: set<nat>, disk: Disk, ghost files: Disk,
                           ghost labels: seq<Label>)
    returns (r: Result<nat, RecoveryError>, after: Disk)
    requires IsRun(Initial(files), labels)
    requires var s := After(Initial(files), labels);
             && CrashLeaves(s, |records|, disk) && records == s.log[..|records|] && FilesKnown(s, objects, disk)
    ensures var s := After(Initial(files), labels);
            && r == Ok(Replayed(records, CommitSet(records)))
            && |CommitIds(records)| <= |s.history|
            && (forall p :: Lookup(after, p) == Lookup(ExecAll(files, s.history[..|CommitIds(records)|]), p))
            && (forall t :: t in s.returned ==> exists i :: 0 <= i < |CommitIds(records)| && s.history[i].txn == t)
  {
    SurvivorsReplayable(files, labels, |records|, objects, disk);
    RecoveryIsExact(files, labels, |records|, disk);
    r, after := RunRecovery(records, objects, disk);
  }

  /**
   Abort exactness: when the pages have been reloaded, each page the transaction dirtied shows its
   last committed contents again, without its own changes.
   */
  lemma AbortIsExact(files: Disk, labels: seq<Label>, t: TxnId)
    requires IsRun(Initial(files), labels)
    requires var s := After(Initial(files), labels); t in s.txns && s.txns[t].phase == Undoing({})
    ensures var s := After(Initial(files), labels);
            forall p :: p in s.txns[t].dirtied ==> View(s, p) == Lookup(SerialState(s), p)
  {
    RunInv(files, labels);
    var s := After(Initial(files), labels);
    assert TxnOk(s, t, s.txns[t]);
  }

  /** Reloading one page leaves every other cached page, the files and the log as they were. */
  lemma UndoTouchesOnePage(s: State, t: TxnId, key: PageKey, p: PageKey)
    requires Inv(s) && t in s.txns && s.txns[t].phase.Undoing? && key in s.txns[t].phase.todo
    ensures View(DoUndo(s, t, key), p) == if p == key then Lookup(SerialState(s), p) else View(s, p)
    ensures DoUndo(s, t, key).disk == s.disk && DoUndo(s, t, key).log == s.log
  {
    UndoRestores(s, t, key);
  }

  // ----- wait-die

  /** A sleeping, un-notified request still conflicts, and somebody younger holds the page. */
  ghost predicate SleeperOk(locks: LockTable, t: TxnId, w: Wanted) {
    && w.key in locks
    && ConflictsWithOthers(locks[w.key], t, w.mode)
    && exists h :: h in OtherHolders(locks[w.key], t) && t < h
  }

  ghost predicate SleepersOk(s: State) {
    forall t :: t in s.sleepers ==> SleeperOk(s.locks, t, s.sleepers[t])
  }

  lemma SleeperStays(locks: LockTable, t: TxnId, w: Wanted, u: TxnId, key: PageKey, mode: LockMode)
    requires Sound(locks) && SleeperOk(locks, t, w) && u != t && Request(locks, u, key, mode).Granted?
    ensures SleeperOk(Request(locks, u, key, mode).locks, t, w)
  {
    var l := Request(locks, u, key, mode).locks;
    var h :| h in OtherHolders(locks[w.key], t) && t < h;
    if key == w.key {
      assert Holders(locks[key]) <= Holders(l[key]);
      assert h in OtherHolders(l[w.key], t);
      if w.mode.Exclusive? && l[key].exclusive.None? {
        assert h in l[key].shared - {t};
      }
    }
  }

  lemma NewSleeper(locks: LockTable, t: TxnId, w: Wanted)
    requires Request(locks, t, w.key, w.mode).MustWait?
    ensures SleeperOk(locks, t, w)
  {
    var e := locks[w.key];
    if e.exclusive.Some? && e.exclusive.value != t {
      assert e.exclusive.value in OtherHolders(e, t);
    } else {
      var h :| h in e.shared - {t};
      assert h in OtherHolders(e, t);
    }
  }

  lemma SleepersQuiet(s: State, l: Label)
    requires Sound(s.locks) && Enabled(s, l) && !l.LAcquire? && !l.LNewPage?
    ensures var s1 := Do(s, l);
            s1.sleepers == map[] ||
                (s1.locks == s.locks && forall t :: t in s1.sleepers ==>
                    t in s.sleepers && s1.sleepers[t] == s.sleepers[t])
  {
    if (l.LCommitEnd? || l.LAbortEnd?) && !HoldsAny(s.locks, l.t) {
      ReleaseNothing(s.locks, l.t);
    }
  }

  lemma SleepersAcquire(s: State, t: TxnId, key: PageKey, mode: LockMode)
    requires Sound(s.locks) && SleepersOk(s) && Active(s, t) && !Request(s.locks, t, key, mode).MustDie?
    ensures SleepersOk(DoAcquire(s, t, key, mode))
  {
    if Request(s.locks, t, key, mode).Granted? {
      forall u | u in s.sleepers
        ensures SleeperOk(DoAcquire(s, t, key, mode).locks, u, s.sleepers[u])
      {
        SleeperStays(s.locks, u, s.sleepers[u], t, key, mode);
      }
    } else {
      NewSleeper(s.locks, t, Wanted(key, mode));
    }
  }

  lemma SleepersStep(s: State, l: Label)
    requires LocksOk(s) && SleepersOk(s) && Enabled(s, l)
    ensures SleepersOk(Do(s, l))
  {
    if l.LAcquire? {
      SleepersAcquire(s, l.t, l.key, l.mode);
    } else if l.LNewPage? {
      assert forall u :: u in s.sleepers ==> s.sleepers[u].key != l.key;
    } else {
      SleepersQuiet(s, l);
    }
  }

  lemma {:induction false} RunSleepers(files: Disk, labels: seq<Label>)
    requires IsRun(Initial(files), labels)
    ensures SleepersOk(After(Initial(files), labels))
    decreases |labels|
  {
    if labels != [] {
      var before := labels[..|labels| - 1];
      RunSleepers(files, before);
      RunInv(files, before);
      SleepersStep(After(Initial(files), before), labels[|labels| - 1]);
    }
  }

  lemma Youngest(ids: set<TxnId>) returns (m: TxnId)
    requires ids != {}
    ensures m in ids && forall t :: t in ids ==> t <= m
    decreases |ids|
  {
    m :| m in ids;
    var rest := ids - {m};
    if rest != {} {
      var n := Youngest(rest);
      assert ids == rest + {m};
      if n > m { m := n; }
    } else {
      assert ids == {m};
    }
  }

  /**
   Wait-die never gets stuck: in every run, if anybody sleeps then some transaction that holds a
   lock is awake, and it is younger than every sleeper. So the youngest live transaction never sleeps.
   */
  lemma SomeHolderIsAwake(files: Disk, labels: seq<Label>) returns (h: TxnId)
    requires IsRun(Initial(files), labels) && After(Initial(files), labels).sleepers != map[]
    ensures var s := After(Initial(files), labels);
            && h in s.txns && h !in s.sleepers
            && (exists key :: HoldsS(s.locks, h, key))
            && (forall t :: t in s.sleepers ==> t < h)
  {
    RunInv(files, labels);
    RunSleepers(files, labels);
    var s := After(Initial(files), labels);
    var t0 :| t0 in s.sleepers;
    var m := Youngest(s.sleepers.Keys);
    var w := s.sleepers[m];
    assert SleeperOk(s.locks, m, w);
    h :| h in OtherHolders(s.locks[w.key], m) && m < h;
    assert HoldsS(s.locks, h, w.key);
  }

  /** The victim is always younger than some live holder of the page: the oldest transaction is never the victim. */
  lemma OldestNeverDies(s: State, t: TxnId, key: PageKey, mode: LockMode)
    requires Inv(s) && Request(s.locks, t, key, mode).MustDie?
    ensures exists h :: h in s.txns && h < t && HoldsS(s.locks, h, key)
  {
    var h :| h in OtherHolders(s.locks[key], t) && !(t < h);
    assert HoldsS(s.locks, h, key);
  }
}
