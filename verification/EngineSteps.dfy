/** Every step of the engine keeps the invariant. */
module EngineSteps {
  import opened Wrappers
  import opened Locks
  import opened Serial
  import opened Recovery
  import opened Engine
  import opened EngineInv

  /** A step of `t` that only changes t's own pages, records and locks leaves the others' view intact. */
  lemma OthersStay(s: State, s1: State, t: TxnId)
    requires LocksOk(s) && TxnsOk(s) && t in s.txns
    requires s.nextTxn <= s1.nextTxn && s.synced <= s1.synced
    requires forall u :: u in s1.txns && u != t ==> u in s.txns && s1.txns[u] == s.txns[u]
    requires forall u, key :: u != t && HoldsX(s.locks, u, key) ==> HoldsX(s1.locks, u, key)
    requires forall u, key :: u != t && HoldsS(s.locks, u, key) ==> HoldsS(s1.locks, u, key)
    requires forall p :: p !in s.txns[t].dirtied ==> Lookup(SerialState(s1), p) == Lookup(SerialState(s), p)
    requires forall p :: p in s.cache && p !in s.txns[t].dirtied && !HoldsX(s.locks, t, p) ==>
            p in s1.cache && s1.cache[p] == s.cache[p]
    requires forall p :: p in s.dirty && p !in s.txns[t].dirtied ==> p in s1.dirty
    requires s1.log == s.log || (|s1.log| == |s.log| + 1 && s1.log[..|s.log|] == s.log && s1.log[|s.log|].txn == t &&
                                 (s1.log[|s.log|].Update? ==> s1.log[|s.log|].key in s.txns[t].dirtied))
    ensures forall u :: u in s1.txns && u != t ==> TxnOk(s1, u, s1.txns[u])
  {
    forall u | u in s1.txns && u != t
      ensures TxnOk(s1, u, s1.txns[u])
    {
      var x := s.txns[u];
      assert TxnOk(s, u, x);
      forall p | p in s.txns[t].dirtied || HoldsX(s.locks, t, p)
        ensures p !in x.dirtied && !Touches(x.ops, p)
      {
        TouchersApart(s, t, u, p);
      }
      forall i | 0 <= i < |x.ops|
        ensures Lookup(SerialState(s1), x.ops[i].key) == Lookup(SerialState(s), x.ops[i].key)
      {
        assert Touches(x.ops, x.ops[i].key);
      }
      TxnStays(s, s1, u, x);
    }
  }

  /** Which pages are in flight does not change when each transaction's sets do not. */
  lemma MarksStay(s: State, s1: State, t: TxnId)
    requires forall u :: u != t ==> (u in s.txns <==> u in s1.txns)
    requires forall u :: u != t && u in s.txns ==> s1.txns[u] == s.txns[u]
    requires t in s.txns && t in s1.txns ==>
            Unsettled(s1.txns[t]) == Unsettled(s.txns[t]) && Unforced(s1.txns[t]) == Unforced(s.txns[t])
    requires t in s.txns && t !in s1.txns ==> Unsettled(s.txns[t]) == {} && Unforced(s.txns[t]) == {}
    requires t !in s.txns && t in s1.txns ==> Unsettled(s1.txns[t]) == {} && Unforced(s1.txns[t]) == {}
    ensures forall p :: IsUnsettled(s1, p) <==> IsUnsettled(s, p)
    ensures forall p :: IsUnforced(s1, p) <==> IsUnforced(s, p)
  {
    forall p | IsUnsettled(s, p) ensures IsUnsettled(s1, p) {
      var u :| u in s.txns && p in Unsettled(s.txns[u]);
      assert u in s1.txns && p in Unsettled(s1.txns[u]);
    }
    forall p | IsUnsettled(s1, p) ensures IsUnsettled(s, p) {
      var u :| u in s1.txns && p in Unsettled(s1.txns[u]);
      assert u in s.txns && p in Unsettled(s.txns[u]);
    }
    forall p | IsUnforced(s, p) ensures IsUnforced(s1, p) {
      var u :| u in s.txns && p in Unforced(s.txns[u]);
      assert u in s1.txns && p in Unforced(s1.txns[u]);
    }
    forall p | IsUnforced(s1, p) ensures IsUnforced(s, p) {
      var u :| u in s1.txns && p in Unforced(s1.txns[u]);
      assert u in s.txns && p in Unforced(s.txns[u]);
    }
  }

  /** A page `t` holds exclusively is in flight only because of `t`. */
  lemma OnlyOwner(s: State, t: TxnId, p: PageKey)
    requires LocksOk(s) && TxnsOk(s) && t in s.txns && HoldsS(s.locks, t, p)
    ensures IsUnsettled(s, p) ==> p in Unsettled(s.txns[t])
    ensures p in s.txns[t].dirtied && IsUnforced(s, p) ==> p in Unforced(s.txns[t])
  {
    assert Holds(s.locks, t, p, Shared);
    forall u | u in s.txns && u != t
      ensures p !in s.txns[u].dirtied
    {
      assert TxnOk(s, u, s.txns[u]);
      WrittenTouched(s.txns[u].ops, p);
      assert !Holds(s.locks, u, p, Exclusive);
    }
    forall u | u in s.txns
      ensures Unsettled(s.txns[u]) <= s.txns[u].dirtied && Unforced(s.txns[u]) <= s.txns[u].dirtied
    {
      assert TxnOk(s, u, s.txns[u]);
    }
  }

  lemma DirtiedLocked(s: State, t: TxnId, p: PageKey)
    requires TxnsOk(s) && t in s.txns && p in s.txns[t].dirtied
    ensures HoldsX(s.locks, t, p) && HoldsS(s.locks, t, p)
  {
    assert TxnOk(s, t, s.txns[t]);
    WrittenTouched(s.txns[t].ops, p);
  }

  /** Records, fsynced prefix and committed history are untouched. */
  lemma LogStays(s: State, s1: State)
    requires LogOk(s) && ForcedOk(s) && Serializable(s.init, s.history)
    requires s1.init == s.init && s1.log == s.log && s1.synced == s.synced && s1.history == s.history
    requires s1.forced == s.forced && s1.returned == s.returned && s1.nextTxn == s.nextTxn
    requires forall p :: Lookup(s1.disk, p) == Lookup(s.disk, p)
    ensures LogOk(s1) && ForcedOk(s1) && Serializable(s1.init, s1.history)
  {
  }

  /** Same page contents, same pages in flight. */
  lemma PagesStay(s: State, s1: State, t: TxnId)
    requires CacheOk(s) && DiskOk(s) && s1.init == s.init && s1.history == s.history
    requires forall p :: View(s1, p) == View(s, p) && Lookup(s1.disk, p) == Lookup(s.disk, p)
    requires forall u :: u != t ==> (u in s.txns <==> u in s1.txns)
    requires forall u :: u != t && u in s.txns ==> s1.txns[u] == s.txns[u]
    requires t in s.txns && t in s1.txns ==>
            Unsettled(s1.txns[t]) == Unsettled(s.txns[t]) && Unforced(s1.txns[t]) == Unforced(s.txns[t])
    requires t in s.txns && t !in s1.txns ==> Unsettled(s.txns[t]) == {} && Unforced(s.txns[t]) == {}
    requires t !in s.txns && t in s1.txns ==> Unsettled(s1.txns[t]) == {} && Unforced(s1.txns[t]) == {}
    ensures CacheOk(s1) && DiskOk(s1)
  {
    MarksStay(s, s1, t);
  }

  // ----- steps that only move locks

  lemma AcquireLocks(s: State, t: TxnId, key: PageKey, mode: LockMode)
    requires LocksOk(s) && t in s.txns && key in s.disk && Request(s.locks, t, key, mode).Granted?
    ensures LocksOk(s.(locks := Request(s.locks, t, key, mode).locks))
    ensures var l := Request(s.locks, t, key, mode).locks;
            forall u, k :: (HoldsX(s.locks, u, k) ==> HoldsX(l, u, k)) && (HoldsS(s.locks, u, k) ==> HoldsS(l, u, k))
  {
    var l := Request(s.locks, t, key, mode).locks;
    RequestGrants(s.locks, t, key, mode);
    forall u, k
      ensures HoldsX(s.locks, u, k) ==> HoldsX(l, u, k)
      ensures HoldsS(s.locks, u, k) ==> HoldsS(l, u, k)
      ensures HoldsS(l, u, k) ==> u in s.txns
    {
      assert Holds(s.locks, u, k, Exclusive) ==> Holds(l, u, k, Exclusive);
      assert Holds(s.locks, u, k, Shared) ==> Holds(l, u, k, Shared);
      assert Holds(l, u, k, Shared) ==> Holds(s.locks, u, k, Shared) || u == t;
      assert Holds(s.locks, u, k, Shared) ==> HoldsS(s.locks, u, k);
    }
  }

  lemma StepAcquire(s: State, t: TxnId, key: PageKey, mode: LockMode)
    requires Inv(s) && Active(s, t) && key in s.disk
    ensures Inv(DoAcquire(s, t, key, mode))
  {
    var s1 := DoAcquire(s, t, key, mode);
    if Request(s.locks, t, key, mode).Granted? {
      AcquireLocks(s, t, key, mode);
    }
    QuietStep(s, s1);
  }

  /** A step that changes neither pages, records nor transactions. */
  lemma QuietStep(s: State, s1: State)
    requires Inv(s) && LocksOk(s1)
    requires s1 == s.(locks := s1.locks, sleepers := s1.sleepers)
    requires forall u, k ::
               (HoldsX(s.locks, u, k) ==> HoldsX(s1.locks, u, k)) && (HoldsS(s.locks, u, k) ==> HoldsS(s1.locks, u, k))
    ensures Inv(s1)
  {
    forall u | u in s1.txns
      ensures TxnOk(s1, u, s1.txns[u])
    {
      TxnStays(s, s1, u, s.txns[u]);
    }
    PagesStay(s, s1, 0);
    LogStays(s, s1);
  }

  lemma StepWake(s: State, t: TxnId)
    requires Inv(s)
    ensures Inv(DoWake(s, t))
  {
    QuietStep(s, DoWake(s, t));
  }

  // ----- reading and writing

  /** What a transaction sees is what it would see running alone after the committed ones. */
  lemma ReadsSerially(s: State, t: TxnId, key: PageKey)
    requires Inv(s) && t in s.txns && s.txns[t].phase.Running? && HoldsS(s.locks, t, key)
    ensures View(s, key) == Lookup(Exec(SerialState(s), s.txns[t].ops), key)
  {
    var x := s.txns[t];
    assert TxnOk(s, t, x);
    if key !in x.dirtied {
      OnlyOwner(s, t, key);
      ExecFrame(SerialState(s), x.ops, key);
    }
  }

  lemma ReadTxn(s: State, t: TxnId, key: PageKey, s1: State)
    requires TxnsOk(s) && Active(s, t) && HoldsS(s.locks, t, key) && s1 == DoRead(s, t, key)
    requires View(s, key) == Lookup(Exec(SerialState(s), s.txns[t].ops), key)
    ensures TxnOk(s1, t, s1.txns[t])
  {
    assert TxnOk(s, t, s.txns[t]);
    OpsSnoc(SerialState(s), s.txns[t].ops, Read(key, View(s, key)));
  }

  lemma ReadOthers(s: State, t: TxnId, key: PageKey, s1: State)
    requires LocksOk(s) && TxnsOk(s) && t in s.txns && s1 == DoRead(s, t, key)
    ensures forall u :: u in s1.txns && u != t ==> TxnOk(s1, u, s1.txns[u])
  {
    OthersStay(s, s1, t);
  }

  lemma ReadPages(s: State, t: TxnId, key: PageKey, s1: State)
    requires CacheOk(s) && DiskOk(s) && Active(s, t) && s1 == DoRead(s, t, key)
    ensures CacheOk(s1) && DiskOk(s1)
  {
    PagesStay(s, s1, t);
  }

  lemma StepRead(s: State, t: TxnId, key: PageKey)
    requires Inv(s) && Active(s, t) && HoldsS(s.locks, t, key)
    ensures Inv(DoRead(s, t, key))
  {
    var s1 := DoRead(s, t, key);
    ReadsSerially(s, t, key);
    ReadTxn(s, t, key, s1);
    ReadOthers(s, t, key, s1);
    ReadPages(s, t, key, s1);
    LogStays(s, s1);
  }

  lemma DirtyTxn(s: State, s1: State, t: TxnId, key: PageKey, image: Image)
    requires TxnsOk(s) && Active(s, t) && HoldsX(s1.locks, t, key)
    requires forall k ::
               (HoldsX(s.locks, t, k) ==> HoldsX(s1.locks, t, k)) && (HoldsS(s.locks, t, k) ==> HoldsS(s1.locks, t, k))
    requires s1 == DoWrite(s, t, key, image).(disk := s1.disk, locks := s1.locks)
    ensures TxnOk(s1, t, s1.txns[t])
  {
    assert TxnOk(s, t, s.txns[t]);
    OpsSnoc(SerialState(s), s.txns[t].ops, Write(key, image));
  }

  lemma DirtyTxns(s: State, s1: State, t: TxnId, key: PageKey, image: Image)
    requires LocksOk(s) && TxnsOk(s) && Active(s, t) && HoldsX(s1.locks, t, key)
    requires key in s.locks ==> HoldsX(s.locks, t, key)
    requires forall u, k ::
               (HoldsX(s.locks, u, k) ==> HoldsX(s1.locks, u, k)) && (HoldsS(s.locks, u, k) ==> HoldsS(s1.locks, u, k))
    requires s1 == DoWrite(s, t, key, image).(disk := s1.disk, locks := s1.locks)
    ensures TxnsOk(s1)
  {
    DirtyTxn(s, s1, t, key, image);
    forall u | u in s1.txns && u != t
      ensures TxnOk(s1, u, s1.txns[u])
    {
      assert TxnOk(s, u, s.txns[u]);
      assert key !in s.txns[u].dirtied by {
        if key in s.locks {
          TouchersApart(s, t, u, key);
        } else {
          WrittenTouched(s.txns[u].ops, key);
        }
      }
      TxnStays(s, s1, u, s.txns[u]);
    }
  }

  lemma DirtyPages(s: State, s1: State, t: TxnId, key: PageKey, image: Image)
    requires CacheOk(s) && DiskOk(s) && Active(s, t)
    requires s1 == DoWrite(s, t, key, image).(disk := s1.disk, locks := s1.locks)
    requires forall p :: Lookup(s1.disk, p) == Lookup(s.disk, p)
    ensures CacheOk(s1) && DiskOk(s1)
  {
    forall p
      ensures IsUnsettled(s, p) || p == key ==> IsUnsettled(s1, p)
      ensures IsUnforced(s, p) ==> IsUnforced(s1, p)
    {
      if p == key {
        assert t in s1.txns && p in Unsettled(s1.txns[t]);
      } else if IsUnsettled(s, p) {
        var u :| u in s.txns && p in Unsettled(s.txns[u]);
        assert u in s1.txns && p in Unsettled(s1.txns[u]);
      }
      if IsUnforced(s, p) {
        var u :| u in s.txns && p in Unforced(s.txns[u]);
        assert u in s1.txns && p in Unforced(s1.txns[u]);
      }
    }
  }

  lemma StepWrite(s: State, t: TxnId, key: PageKey, image: Image)
    requires Inv(s) && Active(s, t) && HoldsX(s.locks, t, key)
    ensures Inv(DoWrite(s, t, key, image))
  {
    var s1 := DoWrite(s, t, key, image);
    DirtyTxns(s, s1, t, key, image);
    DirtyPages(s, s1, t, key, image);
    LogStays(s, s1);
  }

  /** A brand-new page is granted at once: nobody can hold a lock on it. */
  lemma NewPageLocks(s: State, t: TxnId, key: PageKey)
    requires LocksOk(s) && Active(s, t) && key !in s.disk
    ensures key !in s.locks && Request(s.locks, t, key, Exclusive) == Granted(DoNewPage(s, t, key).locks)
    ensures LocksOk(DoNewPage(s, t, key))
    ensures var l := DoNewPage(s, t, key).locks;
            forall u, k :: (HoldsX(s.locks, u, k) ==> HoldsX(l, u, k)) && (HoldsS(s.locks, u, k) ==> HoldsS(l, u, k))
  {
    var s0, s1 := s.(disk := s.disk[key := ZeroPage()]), DoNewPage(s, t, key);
    assert key !in s.locks;
    assert Granting(LockEntry({}, None), t, Exclusive) == LockEntry({}, Some(t));
    AcquireLocks(s0, t, key, Exclusive);
    LocksOkFields(s0.(locks := s1.locks), s1);
  }

  /** LocksOk looks only at the lock table, the allocated pages, the sleepers and the phases. */
  lemma LocksOkFields(s: State, s1: State)
    requires LocksOk(s) && s1.locks == s.locks && s1.disk.Keys == s.disk.Keys && s1.sleepers == s.sleepers
    requires s1.cache.Keys <= s1.disk.Keys
    requires s1.txns.Keys == s.txns.Keys && forall t :: t in s.txns ==> s1.txns[t].phase == s.txns[t].phase
    ensures LocksOk(s1)
  {
  }

  lemma NewPageTxns(s: State, t: TxnId, key: PageKey, s1: State)
    requires LocksOk(s) && TxnsOk(s) && Active(s, t) && key !in s.disk && s1 == DoNewPage(s, t, key)
    ensures LocksOk(s1) && TxnsOk(s1)
  {
    NewPageLocks(s, t, key);
    DirtyTxns(s, s1, t, key, ZeroPage());
  }

  lemma StepNewPage(s: State, t: TxnId, key: PageKey)
    requires Inv(s) && Active(s, t) && key !in s.disk
    ensures Inv(DoNewPage(s, t, key))
  {
    var s1 := DoNewPage(s, t, key);
    NewPageTxns(s, t, key, s1);
    DirtyPages(s, s1, t, key, ZeroPage());
    LogStays(s, s1);
  }

  // ----- beginning

  lemma FreshId(s: State)
    requires LocksOk(s) && TxnsOk(s)
    ensures s.nextTxn !in s.txns && s.nextTxn !in s.sleepers
  {
    forall t | t in s.txns
      ensures t < s.nextTxn
    {
      assert TxnOk(s, t, s.txns[t]);
    }
  }

  /** The log gains a record that is not a Commit. */
  lemma RecordAdded(s: State, s1: State, r: Record)
    requires LogOk(s) && ForcedOk(s) && Serializable(s.init, s.history)
    requires !r.Commit? && r.txn < s1.nextTxn && s.nextTxn <= s1.nextTxn && (r.Update? ==> r.txn !in CommitSet(s.log))
    requires s1.init == s.init && s1.log == s.log + [r] && s1.synced == s.synced && s1.history == s.history
    requires s1.forced == s.forced && s1.returned == s.returned && s1.disk == s.disk
    ensures LogOk(s1) && ForcedOk(s1) && Serializable(s1.init, s1.history)
  {
    LogGrows(s.init, s.log, s.history, r);
    assert s1.log[..s.synced] == s.log[..s.synced];
  }

  lemma BeginTxns(s: State, s1: State)
    requires TxnsOk(s) && s1 == DoBegin(s) && forall i :: 0 <= i < |s.log| ==> s.log[i].txn < s.nextTxn
    ensures TxnsOk(s1) && s.nextTxn !in s.txns
  {
    forall u | u in s.txns
      ensures u < s.nextTxn && TxnOk(s1, u, s.txns[u])
    {
      assert TxnOk(s, u, s.txns[u]);
      TxnStays(s, s1, u, s.txns[u]);
    }
    assert TxnOk(s1, s.nextTxn, s1.txns[s.nextTxn]);
  }

  lemma StepBegin(s: State)
    requires Inv(s)
    ensures Inv(DoBegin(s))
  {
    var s1 := DoBegin(s);
    BeginTxns(s, s1);
    PagesStay(s, s1, s.nextTxn);
    RecordAdded(s, s1, Begin(s.nextTxn));
  }
}
