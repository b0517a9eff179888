/** Commit and Abort keep the invariant. */
module EngineCommit {
  import opened Wrappers
  import opened Locks
  import opened Serial
  import opened Recovery
  import opened Engine
  import opened EngineInv
  import opened EngineSteps

  /** A step that moves one transaction to another phase with the same pages in flight. */
  lemma PhaseStep(s: State, t: TxnId, phase: Phase)
    requires Inv(s) && t in s.txns && t !in s.sleepers
    requires TxnOk(SetPhase(s, t, phase), t, s.txns[t].(phase := phase))
    requires Unsettled(s.txns[t].(phase := phase)) == Unsettled(s.txns[t])
    requires Unforced(s.txns[t].(phase := phase)) == Unforced(s.txns[t])
    ensures Inv(SetPhase(s, t, phase))
  {
    var s1 := SetPhase(s, t, phase);
    OthersStay(s, s1, t);
    PagesStay(s, s1, t);
    LogStays(s, s1);
  }

  lemma AwakeUnlessRunning(s: State, t: TxnId)
    requires LocksOk(s) && t in s.txns && !s.txns[t].phase.Running?
    ensures t !in s.sleepers
  {
  }

  lemma StepCommitStart(s: State, t: TxnId)
    requires Inv(s) && Active(s, t)
    ensures Inv(SetPhase(s, t, Logging({})))
  {
    assert TxnOk(s, t, s.txns[t]);
    PhaseStep(s, t, Logging({}));
  }

  lemma StepAbortStart(s: State, t: TxnId)
    requires Inv(s) && Active(s, t)
    ensures Inv(SetPhase(s, t, Undoing(s.txns[t].dirtied)))
  {
    assert TxnOk(s, t, s.txns[t]);
    PhaseStep(s, t, Undoing(s.txns[t].dirtied));
  }

  lemma StepSynced(s: State, t: TxnId)
    requires Inv(s) && t in s.txns && s.txns[t].phase.Syncing? && s.txns[t].phase.at < s.synced
    ensures Inv(SetPhase(s, t, Forcing(s.txns[t].phase.at, s.txns[t].dirtied)))
  {
    assert TxnOk(s, t, s.txns[t]);
    AwakeUnlessRunning(s, t);
    PhaseStep(s, t, Forcing(s.txns[t].phase.at, s.txns[t].dirtied));
  }

  // ----- logging

  lemma LogUpdateTxn(s: State, t: TxnId, key: PageKey, s1: State)
    requires TxnsOk(s) && t in s.txns && s.txns[t].phase.Logging? && key in s.txns[t].dirtied && key in s.cache
    requires s1 == DoLogUpdate(s, t, key)
    ensures TxnOk(s1, t, s1.txns[t])
  {
    assert TxnOk(s, t, s.txns[t]);
    var r := Update(t, key, s.cache[key]);
    forall p | p in s1.txns[t].phase.logged
      ensures LastUpdate(s1.log, p) == Some(Update(t, p, s1.cache[p]))
    {
      LastUpdateSnoc(s.log, r, p);
    }
  }

  lemma LogUpdateOthers(s: State, t: TxnId, key: PageKey, s1: State)
    requires LocksOk(s) && TxnsOk(s) && t in s.txns && s.txns[t].phase.Logging? && key in s.txns[t].dirtied
    requires key in s.cache
    requires s1 == DoLogUpdate(s, t, key)
    ensures forall u :: u in s1.txns && u != t ==> TxnOk(s1, u, s1.txns[u])
  {
    OthersStay(s, s1, t);
  }

  lemma StepLogUpdate(s: State, t: TxnId, key: PageKey)
    requires Inv(s) && t in s.txns && s.txns[t].phase.Logging? && key in s.txns[t].dirtied && key in s.cache
    ensures Inv(DoLogUpdate(s, t, key))
  {
    var s1 := DoLogUpdate(s, t, key);
    assert TxnOk(s, t, s.txns[t]);
    AwakeUnlessRunning(s, t);
    LogUpdateTxn(s, t, key, s1);
    LogUpdateOthers(s, t, key, s1);
    PagesStay(s, s1, t);
    InCommitSet(s.log, t);
    RecordAdded(s, s1, Update(t, key, s.cache[key]));
  }

  // ----- the Commit record

  /** The pages of the committing transaction are exactly where its serial turn changes the database. */
  lemma CommitSerial(s: State, t: TxnId, s1: State)
    requires t in s.txns && s1 == DoLogCommit(s, t) && s.txns[t].dirtied == Written(s.txns[t].ops)
    ensures SerialState(s1) == Exec(SerialState(s), s.txns[t].ops)
    ensures forall p :: p !in s.txns[t].dirtied ==> Lookup(SerialState(s1), p) == Lookup(SerialState(s), p)
  {
    HistorySnoc(s.init, s.history, Done(t, s.txns[t].ops));
    forall p | p !in s.txns[t].dirtied
      ensures Lookup(SerialState(s1), p) == Lookup(SerialState(s), p)
    {
      ExecFrame(SerialState(s), s.txns[t].ops, p);
    }
  }

  lemma {:induction false} LastUpdateIndex(log: seq<Record>, t: TxnId, p: PageKey, image: Image)
    requires LastUpdate(log, p) == Some(Update(t, p, image))
    ensures UpdateBefore(log, t, |log|, p)
  {
    if log != [] {
      var n := |log| - 1;
      if log[n].Update? && log[n].key == p {
      } else {
        LastUpdateIndex(log[..n], t, p, image);
        var i :| 0 <= i < n && log[..n][i].Update? && log[..n][i].txn == t && log[..n][i].key == p;
        assert log[i].Update? && log[i].txn == t && log[i].key == p;
      }
    }
  }

  lemma CommitTxn(s: State, t: TxnId, s1: State)
    requires TxnsOk(s) && t in s.txns && s.txns[t].phase == Logging(s.txns[t].dirtied) && s1 == DoLogCommit(s, t)
    requires SerialState(s1) == Exec(SerialState(s), s.txns[t].ops)
    ensures TxnOk(s1, t, s1.txns[t])
  {
    var x := s.txns[t];
    assert TxnOk(s, t, x);
    assert forall i :: 0 <= i < |s.log| ==> s1.log[i] == s.log[i];
    forall at | 0 <= at < |s1.log| && s1.log[at] == Commit(t)
      ensures LoggedBefore(s1.log, t, at, x.dirtied)
    {
      assert at == |s.log|;
      forall p | p in x.dirtied
        ensures UpdateBefore(s1.log, t, at, p)
      {
        LastUpdateIndex(s.log, t, p, s.cache[p]);
        var i :| 0 <= i < |s.log| && s.log[i].Update? && s.log[i].txn == t && s.log[i].key == p;
        assert s1.log[i].Update? && s1.log[i].txn == t && s1.log[i].key == p;
      }
    }
  }

  lemma CommitOthers(s: State, t: TxnId, s1: State)
    requires LocksOk(s) && TxnsOk(s) && t in s.txns && s1 == DoLogCommit(s, t)
    requires forall p :: p !in s.txns[t].dirtied ==> Lookup(SerialState(s1), p) == Lookup(SerialState(s), p)
    ensures forall u :: u in s1.txns && u != t ==> TxnOk(s1, u, s1.txns[u])
  {
    OthersStay(s, s1, t);
  }

  lemma CommitMarks(s: State, t: TxnId, s1: State)
    requires t in s.txns && s.txns[t].phase == Logging(s.txns[t].dirtied) && s1 == DoLogCommit(s, t)
    ensures forall p :: IsUnsettled(s, p) ==> IsUnsettled(s1, p) || p in s.txns[t].dirtied
    ensures forall p :: IsUnforced(s, p) || p in s.txns[t].dirtied ==> IsUnforced(s1, p)
  {
    forall p | IsUnsettled(s, p) && p !in s.txns[t].dirtied
      ensures IsUnsettled(s1, p)
    {
      var u :| u in s.txns && p in Unsettled(s.txns[u]);
      assert u in s1.txns && p in Unsettled(s1.txns[u]);
    }
    forall p | IsUnforced(s, p) || p in s.txns[t].dirtied
      ensures IsUnforced(s1, p)
    {
      if p in s.txns[t].dirtied {
        assert t in s1.txns && p in Unforced(s1.txns[t]);
      } else {
        var u :| u in s.txns && p in Unforced(s.txns[u]);
        assert u in s1.txns && p in Unforced(s1.txns[u]);
      }
    }
  }

  lemma CommitPages(s: State, t: TxnId, s1: State)
    requires CacheOk(s) && DiskOk(s)
    requires t in s.txns && s.txns[t].phase == Logging(s.txns[t].dirtied) && s1 == DoLogCommit(s, t)
    requires Unflushed(s, s.txns[t].dirtied, SerialState(s1))
    requires forall p :: p !in s.txns[t].dirtied ==> Lookup(SerialState(s1), p) == Lookup(SerialState(s), p)
    ensures CacheOk(s1) && DiskOk(s1)
  {
    CommitMarks(s, t, s1);
  }

  /** Appending t's Commit record makes recovery redo exactly t's pages on top of what it redid before. */
  lemma CommitRedo(s: State, t: TxnId, p: PageKey)
    requires TxnsOk(s) && t in s.txns && s.txns[t].phase == Logging(s.txns[t].dirtied)
    requires Lookup(Recovered(s.init, s.log), p) == Lookup(SerialState(s), p)
    ensures Lookup(Recovered(s.init, s.log + [Commit(t)]), p) == Lookup(Exec(SerialState(s), s.txns[t].ops), p)
  {
    var x := s.txns[t];
    assert TxnOk(s, t, x);
    CommitSetSnoc(s.log, Commit(t));
    var w := CommitSet(s.log);
    RedoSnoc(s.init, s.log, w + {t}, Commit(t));
    if p in x.dirtied {
      assert LastUpdate(s.log, p) == Some(Update(t, p, s.cache[p]));
      RedoLast(s.init, s.log, w + {t}, p);
    } else {
      RedoUntouched(s.init, s.log, w, t, p);
      ExecFrame(SerialState(s), x.ops, p);
    }
  }

  lemma CommitWholeLog(s: State, t: TxnId, s1: State)
    requires TxnsOk(s) && LogOk(s) && t in s.txns && s.txns[t].phase == Logging(s.txns[t].dirtied)
    requires s1 == DoLogCommit(s, t)
    ensures forall p :: Lookup(Recovered(s1.init, s1.log), p) == Lookup(ExecAll(s1.init, s1.history), p)
  {
    HistorySnoc(s.init, s.history, Done(t, s.txns[t].ops));
    assert PrefixOk(s.init, s.log, s.history, |s.log|);
    assert s.log[..|s.log|] == s.log && s.history[..|s.history|] == s.history;
    forall p
      ensures Lookup(Recovered(s1.init, s1.log), p) == Lookup(ExecAll(s1.init, s1.history), p)
    {
      CommitRedo(s, t, p);
    }
  }

  lemma CommitLog(s: State, t: TxnId, s1: State)
    requires TxnsOk(s) && LogOk(s) && t in s.txns && s.txns[t].phase == Logging(s.txns[t].dirtied)
    requires s1 == DoLogCommit(s, t)
    ensures LogOk(s1)
  {
    assert t < s.nextTxn by { assert TxnOk(s, t, s.txns[t]); }
    CommitSetSnoc(s.log, Commit(t));
    CommitWholeLog(s, t, s1);
    forall n | 0 <= n <= |s1.log|
      ensures PrefixOk(s1.init, s1.log, s1.history, n)
    {
      if n <= |s.log| {
        assert s1.log[..n] == s.log[..n];
        assert PrefixOk(s.init, s.log, s.history, n);
        var k := |CommitIds(s.log[..n])|;
        assert s1.history[..k] == s.history[..k];
      } else {
        assert s1.log[..n] == s1.log && s1.history[..|s1.history|] == s1.history;
      }
    }
  }

  lemma StepLogCommit(s: State, t: TxnId)
    requires Inv(s) && t in s.txns && s.txns[t].phase == Logging(s.txns[t].dirtied)
    ensures Inv(DoLogCommit(s, t))
  {
    var s1 := DoLogCommit(s, t);
    assert TxnOk(s, t, s.txns[t]);
    AwakeUnlessRunning(s, t);
    CommitSerial(s, t, s1);
    CommitTxn(s, t, s1);
    CommitOthers(s, t, s1);
    CommitPages(s, t, s1);
    CommitLog(s, t, s1);
    assert s1.log[..s.synced] == s.log[..s.synced];
    HistorySnoc(s.init, s.history, Done(t, s.txns[t].ops));
  }

  // ----- fsync and force

  lemma StepSync(s: State, upTo: nat)
    requires Inv(s) && s.synced <= upTo <= |s.log|
    ensures Inv(s.(synced := upTo))
  {
    var s1 := s.(synced := upTo);
    forall u | u in s1.txns
      ensures TxnOk(s1, u, s1.txns[u])
    {
      TxnStays(s, s1, u, s.txns[u]);
    }
    PagesStay(s, s1, 0);
    CommitSetPrefix(s.log, s.synced, upTo);
    forall p | p in s.forced
      ensures HasUpdate(s.log[..upTo], CommitSet(s.log[..upTo]), p)
    {
      var l := s.log[..s.synced];
      var i :| 0 <= i < |l| && l[i].Update? && l[i].txn in CommitSet(l) && l[i].key == p;
      assert s.log[..upTo][i] == l[i];
    }
  }

  lemma ForceTxns(s: State, t: TxnId, key: PageKey, s1: State)
    requires LocksOk(s) && TxnsOk(s) && t in s.txns && s.txns[t].phase.Forcing? && key in s.txns[t].phase.todo
    requires s1 == DoForce(s, t, key)
    ensures TxnsOk(s1)
  {
    assert TxnOk(s, t, s.txns[t]);
    assert TxnOk(s1, t, s1.txns[t]);
    OthersStay(s, s1, t);
  }

  lemma ForceMarks(s: State, t: TxnId, key: PageKey, s1: State)
    requires t in s.txns && s.txns[t].phase.Forcing? && s1 == DoForce(s, t, key)
    ensures forall p :: IsUnsettled(s, p) ==> IsUnsettled(s1, p)
    ensures forall p :: p != key && IsUnforced(s, p) ==> IsUnforced(s1, p)
  {
    forall p | IsUnsettled(s, p)
      ensures IsUnsettled(s1, p)
    {
      var u :| u in s.txns && p in Unsettled(s.txns[u]);
      assert u in s1.txns && p in Unsettled(s1.txns[u]);
    }
    forall p | p != key && IsUnforced(s, p)
      ensures IsUnforced(s1, p)
    {
      var u :| u in s.txns && p in Unforced(s.txns[u]);
      assert u in s1.txns && p in Unforced(s1.txns[u]);
    }
  }

  lemma ForcePages(s: State, t: TxnId, key: PageKey, s1: State)
    requires CacheOk(s) && DiskOk(s) && t in s.txns && s.txns[t].phase.Forcing? && s1 == DoForce(s, t, key)
    requires key in s.cache && key in s.dirty && s.cache[key] == Lookup(SerialState(s), key)
    ensures CacheOk(s1) && DiskOk(s1)
  {
    ForceMarks(s, t, key, s1);
  }

  /** Only pages whose committed image is in the fsynced log ever reach the file. */
  lemma ForceCovered(s: State, t: TxnId, key: PageKey)
    requires TxnsOk(s) && LogOk(s) && t in s.txns && s.txns[t].phase.Forcing? && key in s.txns[t].dirtied
    ensures HasUpdate(s.log[..s.synced], CommitSet(s.log[..s.synced]), key)
    ensures t in CommitSet(s.log[..s.synced])
  {
    var at, l := s.txns[t].phase.at, s.log[..s.synced];
    assert TxnOk(s, t, s.txns[t]);
    assert l[at] == Commit(t);
    InCommitSet(l, t);
    assert UpdateBefore(s.log, t, at, key);
    var i :| 0 <= i < at && s.log[i].Update? && s.log[i].txn == t && s.log[i].key == key;
    assert l[i] == s.log[i];
  }

  lemma ForceLog(s: State, t: TxnId, key: PageKey, s1: State)
    requires ForcedOk(s) && t in s.txns && s.txns[t].phase.Forcing? && s1 == DoForce(s, t, key) && s.synced <= |s.log|
    requires HasUpdate(s.log[..s.synced], CommitSet(s.log[..s.synced]), key)
    ensures ForcedOk(s1)
  {
  }

  lemma StepForce(s: State, t: TxnId, key: PageKey)
    requires Inv(s) && t in s.txns && s.txns[t].phase.Forcing? && key in s.txns[t].phase.todo
    ensures Inv(DoForce(s, t, key))
  {
    var s1 := DoForce(s, t, key);
    assert TxnOk(s, t, s.txns[t]);
    AwakeUnlessRunning(s, t);
    ForceTxns(s, t, key, s1);
    ForcePages(s, t, key, s1);
    ForceCovered(s, t, key);
    ForceLog(s, t, key, s1);
  }

  // ----- undoing

  lemma UndoTxns(s: State, t: TxnId, key: PageKey, s1: State)
    requires LocksOk(s) && TxnsOk(s) && t in s.txns && s.txns[t].phase.Undoing? && key in s.txns[t].phase.todo
    requires s1 == DoUndo(s, t, key)
    requires Lookup(s.disk, key) == Lookup(SerialState(s), key)
    ensures TxnsOk(s1)
  {
    assert TxnOk(s, t, s.txns[t]);
    assert TxnOk(s1, t, s1.txns[t]);
    OthersStay(s, s1, t);
  }

  lemma UndoPages(s: State, t: TxnId, key: PageKey, s1: State)
    requires CacheOk(s) && DiskOk(s) && t in s.txns && s.txns[t].phase.Undoing? && key in s.txns[t].phase.todo
    requires s1 == DoUndo(s, t, key)
    requires key in s.cache && Lookup(s.disk, key) == Lookup(SerialState(s), key)
    ensures CacheOk(s1) && DiskOk(s1)
  {
    forall p
      ensures p != key && IsUnsettled(s, p) ==> IsUnsettled(s1, p)
      ensures IsUnforced(s, p) ==> IsUnforced(s1, p)
    {
      if p != key && IsUnsettled(s, p) {
        var u :| u in s.txns && p in Unsettled(s.txns[u]);
        assert u in s1.txns && p in Unsettled(s1.txns[u]);
      }
      if IsUnforced(s, p) {
        var u :| u in s.txns && p in Unforced(s.txns[u]);
        assert u in s1.txns && p in Unforced(s1.txns[u]);
      }
    }
  }

  /** DiscardPage restores the last committed image, because the force came before the lock release. */
  lemma UndoRestores(s: State, t: TxnId, key: PageKey)
    requires Inv(s) && t in s.txns && s.txns[t].phase.Undoing? && key in s.txns[t].phase.todo
    ensures key in s.cache && Lookup(s.disk, key) == Lookup(SerialState(s), key)
  {
    assert TxnOk(s, t, s.txns[t]);
    DirtiedLocked(s, t, key);
    OnlyOwner(s, t, key);
  }

  lemma StepUndo(s: State, t: TxnId, key: PageKey)
    requires Inv(s) && t in s.txns && s.txns[t].phase.Undoing? && key in s.txns[t].phase.todo
    ensures Inv(DoUndo(s, t, key))
  {
    var s1 := DoUndo(s, t, key);
    UndoRestores(s, t, key);
    AwakeUnlessRunning(s, t);
    UndoTxns(s, t, key, s1);
    UndoPages(s, t, key, s1);
    LogStays(s, s1);
  }

  // ----- aborting after a failed commit

  /** The file has what the transactions before `t` committed; `t` committed what the cache has. */
  lemma UnchangedIff(s: State, t: TxnId)
    requires Inv(s) && t in s.txns && s.txns[t].phase.Syncing?
    ensures Unchanged(s, t) <==> forall p :: p in s.txns[t].dirtied ==> Lookup(s.disk, p) == Lookup(SerialState(s), p)
  {
    assert TxnOk(s, t, s.txns[t]);
  }

  /** No other transaction still has to force a page that `t` dirtied. */
  lemma ForcesOwn(s: State, t: TxnId, u: TxnId, p: PageKey)
    requires LocksOk(s) && TxnsOk(s) && t in s.txns && u in s.txns && u != t && p in Unforced(s.txns[u])
    ensures p !in s.txns[t].dirtied
  {
    assert TxnOk(s, u, s.txns[u]);
    if p in s.txns[t].dirtied { TouchersApart(s, t, u, p); }
  }

  lemma OthersForce(s: State, t: TxnId, s1: State, p: PageKey)
    requires t in s.txns && s1 == SetPhase(s, t, Undoing(s.txns[t].dirtied)) && s.txns[t].phase.Syncing?
    requires IsUnforced(s, p) && p !in s.txns[t].dirtied
    ensures IsUnforced(s1, p)
  {
    var u :| u in s.txns && p in Unforced(s.txns[u]);
    assert u in s1.txns && p in Unforced(s1.txns[u]);
  }

  lemma FailedPages(s: State, t: TxnId, s1: State)
    requires LocksOk(s) && TxnsOk(s) && CacheOk(s) && DiskOk(s) && t in s.txns && s.txns[t].phase.Syncing?
    requires s1 == SetPhase(s, t, Undoing(s.txns[t].dirtied))
    requires forall p :: p in s.txns[t].dirtied ==> Lookup(s.disk, p) == Lookup(SerialState(s), p)
    ensures CacheOk(s1) && DiskOk(s1)
  {
    forall p | IsUnsettled(s, p) ensures IsUnsettled(s1, p) {
      var u :| u in s.txns && p in Unsettled(s.txns[u]);
      assert u in s1.txns && p in Unsettled(s1.txns[u]);
    }
    forall p | !IsUnforced(s1, p) ensures Lookup(s1.disk, p) == Lookup(SerialState(s1), p) {
      if IsUnforced(s, p) && p !in s.txns[t].dirtied { OthersForce(s, t, s1, p); }
    }
  }

  lemma FailedTxns(s: State, t: TxnId, s1: State)
    requires LocksOk(s) && TxnsOk(s) && t in s.txns && s.txns[t].phase.Syncing?
    requires s1 == SetPhase(s, t, Undoing(s.txns[t].dirtied))
    ensures TxnsOk(s1)
  {
    assert TxnOk(s, t, s.txns[t]);
    OthersStay(s, s1, t);
  }

  lemma StepAbortFailed(s: State, t: TxnId)
    requires Inv(s) && t in s.txns && s.txns[t].phase.Syncing? && Unchanged(s, t)
    ensures Inv(SetPhase(s, t, Undoing(s.txns[t].dirtied)))
  {
    var s1 := SetPhase(s, t, Undoing(s.txns[t].dirtied));
    AwakeUnlessRunning(s, t);
    FailedTxns(s, t, s1);
    UnchangedIff(s, t);
    FailedPages(s, t, s1);
    LogStays(s, s1);
  }

  // ----- releasing

  lemma LeaveLocks(s: State, t: TxnId)
    requires LocksOk(s) && t !in s.sleepers
    ensures LocksOk(Leave(s, t))
    ensures forall u, k :: u != t && HoldsX(s.locks, u, k) ==> HoldsX(Leave(s, t).locks, u, k)
    ensures forall u, k :: u != t && HoldsS(s.locks, u, k) ==> HoldsS(Leave(s, t).locks, u, k)
  {
    var l := Released(s.locks, t);
    ReleaseDrops(s.locks, t);
    forall u, k
      ensures u != t && HoldsX(s.locks, u, k) ==> HoldsX(l, u, k)
      ensures u != t && HoldsS(s.locks, u, k) ==> HoldsS(l, u, k)
      ensures HoldsS(l, u, k) ==> u in s.txns && u != t
    {
      assert u != t && Holds(s.locks, u, k, Exclusive) ==> Holds(l, u, k, Exclusive);
      assert u != t && Holds(s.locks, u, k, Shared) ==> Holds(l, u, k, Shared);
      assert Holds(l, u, k, Shared) ==> u != t && Holds(s.locks, u, k, Shared);
      assert Holds(s.locks, u, k, Shared) ==> HoldsS(s.locks, u, k);
    }
  }

  lemma StepCommitEnd(s: State, t: TxnId)
    requires Inv(s) && t in s.txns && s.txns[t].phase.Forcing? && s.txns[t].phase.todo == {}
    ensures Inv(Leave(s, t).(returned := s.returned + {t}))
  {
    var s1 := Leave(s, t).(returned := s.returned + {t});
    LeaveLocks(s, t);
    OthersStay(s, s1, t);
    PagesStay(s, s1, t);
    assert TxnOk(s, t, s.txns[t]);
    assert s.log[..s.synced][s.txns[t].phase.at] == Commit(t);
    InCommitSet(s.log[..s.synced], t);
  }

  lemma StepAbortEnd(s: State, t: TxnId)
    requires Inv(s) && t in s.txns && s.txns[t].phase == Undoing({})
    ensures Inv(Leave(s, t).(log := s.log + [Abort(t)]))
  {
    var s1 := Leave(s, t).(log := s.log + [Abort(t)]);
    LeaveLocks(s, t);
    OthersStay(s, s1, t);
    PagesStay(s, s1, t);
    assert TxnOk(s, t, s.txns[t]);
    RecordAdded(s, s1, Abort(t));
  }

  // ----- every step

  lemma StepInv(s: State, l: Label)
    requires Inv(s) && Enabled(s, l)
    ensures Inv(Do(s, l))
  {
    if IsWork(l) {
      WorkInv(s, l);
    } else {
      EndInv(s, l);
    }
  }

  lemma WorkInv(s: State, l: Label)
    requires Inv(s) && Enabled(s, l) && IsWork(l)
    ensures Inv(Do(s, l))
  {
    match l
    case LBegin => StepBegin(s);
    case LAcquire(t, key, mode) => StepAcquire(s, t, key, mode);
    case LWake(t) => StepWake(s, t);
    case LRead(t, key) => StepRead(s, t, key);
    case LWrite(t, key, image) => StepWrite(s, t, key, image);
    case LNewPage(t, key) => StepNewPage(s, t, key);
  }

  lemma EndInv(s: State, l: Label)
    requires Inv(s) && Enabled(s, l) && !IsWork(l)
    ensures Inv(Do(s, l))
  {
    match l
    case LCommitStart(t) => StepCommitStart(s, t);
    case LLogUpdate(t, key) => StepLogUpdate(s, t, key);
    case LLogCommit(t) => StepLogCommit(s, t);
    case LSync(upTo) => StepSync(s, upTo);
    case LSynced(t) => StepSynced(s, t);
    case LForce(t, key) => StepForce(s, t, key);
    case LCommitEnd(t) => StepCommitEnd(s, t);
    case LAbortStart(t) => StepAbortStart(s, t);
    case LAbortFailed(t) => StepAbortFailed(s, t);
    case LUndo(t, key) => StepUndo(s, t, key);
    case LAbortEnd(t) => StepAbortEnd(s, t);
  }
}
