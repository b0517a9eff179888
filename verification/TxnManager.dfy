/**
 Begin, Commit and Abort as the transaction manager runs them
 (src/txn/transaction_manager.cpp), over a page cache, a lock manager and a log.
 The ghost trace records which engine steps the code has taken; the objects always
 show the state that trace leads to.
 */
module TxnManagers {
  import opened Wrappers
  import opened Locks
  import opened Serial
  import opened Recovery
  import opened BufferPools
  import opened Engine
  import opened EngineInv
  import opened EngineSteps
  import opened EngineCommit
  import opened EngineRuns
  import opened EngineTheorems

  /** `s` is where the engine gets by taking `trace` from the given files. */
  ghost predicate Reached(files: Disk, trace: seq<Label>, s: State) {
    IsRun(Initial(files), trace) && s == After(Initial(files), trace)
  }

  lemma TakeStep(files: Disk, trace: seq<Label>, s: State, l: Label)
    requires Reached(files, trace, s) && Enabled(s, l)
    ensures Reached(files, trace + [l], Do(s, l))
  {
    assert (trace + [l])[..|trace|] == trace;
  }

  /** A live transaction's dirtied pages are cached and dirty; they are allocated. */
  lemma DirtiedFacts(files: Disk, trace: seq<Label>, s: State, t: TxnId)
    requires Reached(files, trace, s) && t in s.txns
    requires (s.txns[t].phase.Running? || s.txns[t].phase.Logging? || s.txns[t].phase.Syncing?)
    ensures s.txns[t].dirtied <= s.cache.Keys && s.txns[t].dirtied <= s.dirty && s.cache.Keys <= s.disk.Keys
    ensures s.synced <= |s.log|
  {
    RunInv(files, trace);
    assert TxnOk(s, t, s.txns[t]);
  }

  lemma NewIdIsFresh(files: Disk, trace: seq<Label>, s: State)
    requires Reached(files, trace, s)
    ensures s.nextTxn !in s.txns && s.nextTxn !in s.sleepers
  {
    RunInv(files, trace);
    FreshId(s);
  }

  /** A locked page is allocated, and reading it is serial. */
  lemma LockedFacts(files: Disk, trace: seq<Label>, s: State, t: TxnId, key: PageKey)
    requires Reached(files, trace, s) && Active(s, t) && HoldsS(s.locks, t, key)
    ensures key in s.disk && View(s, key) == Lookup(Exec(SerialState(s), s.txns[t].ops), key)
  {
    RunInv(files, trace);
    ReadsSerially(s, t, key);
  }

  lemma FreshIsUnlocked(files: Disk, trace: seq<Label>, s: State, key: PageKey)
    requires Reached(files, trace, s) && key !in s.disk
    ensures key !in s.locks
  {
    RunInv(files, trace);
  }

  lemma ForcedFacts(files: Disk, trace: seq<Label>, s: State, t: TxnId)
    requires Reached(files, trace, s) && t in s.txns && s.txns[t].phase.Forcing?
    ensures forall p :: p in s.txns[t].dirtied ==> p in s.cache && s.cache[p] == Lookup(SerialState(s), p)
  {
    RunInv(files, trace);
    assert TxnOk(s, t, s.txns[t]);
  }

  /** What an aborted transaction's pages show, if the engine takes the step. */
  lemma UndoneFacts(files: Disk, trace: seq<Label>, s: State, t: TxnId, l: Label)
    requires Reached(files, trace, s) && t in s.txns && Enabled(s, l) && (l == LAbortStart(t) || l == LAbortFailed(t))
    ensures forall p :: p in s.txns[t].dirtied ==> Lookup(s.disk, p) == Lookup(SerialState(s), p)
  {
    RunInv(files, trace);
    var s1 := Do(s, l);
    StepInv(s, l);
    forall p | p in s.txns[t].dirtied ensures Lookup(s.disk, p) == Lookup(SerialState(s), p) {
      UndoRestores(s1, t, p);
    }
  }

  /** The state after Commit has logged the pages in `done`. */
  ghost function LoggedState(s: State, t: TxnId, done: set<PageKey>, log: seq<Record>): State
    requires t in s.txns
  {
    s.(txns := SetPhase(s, t, Logging(done)).txns, log := log)
  }

  lemma LogStart(files: Disk, trace: seq<Label>, s: State, t: TxnId)
    requires Reached(files, trace, s) && Active(s, t)
    ensures Reached(files, trace + [LCommitStart(t)], LoggedState(s, t, {}, s.log))
  {
    TakeStep(files, trace, s, LCommitStart(t));
  }

  lemma LogStep(files: Disk, trace: seq<Label>, s: State, t: TxnId, done: set<PageKey>, log: seq<Record>, key: PageKey)
    requires t in s.txns && Reached(files, trace, LoggedState(s, t, done, log))
    requires key in s.txns[t].dirtied - done && key in s.cache
    ensures Reached(files, trace + [LLogUpdate(t, key)],
            LoggedState(s, t, done + {key}, log + [Update(t, key, s.cache[key])]))
  {
    var s1 := LoggedState(s, t, done, log);
    TakeStep(files, trace, s1, LLogUpdate(t, key));
    SetPhaseTwice(s, s1, t, Logging(done), Logging(done + {key}));
  }

  /** The state once the Commit record is durable. */
  ghost function DurableState(s: State, t: TxnId): State
    requires t in s.txns && s.txns[t].phase.Syncing?
  {
    SetPhase(s, t, Forcing(s.txns[t].phase.at, s.txns[t].dirtied)).(synced := |s.log|)
  }

  lemma SyncSteps(files: Disk, trace: seq<Label>, s: State, t: TxnId)
    requires Reached(files, trace, s) && t in s.txns && s.txns[t].phase.Syncing? && s.txns[t].phase.at < |s.log|
    requires s.synced <= |s.log|
    ensures Reached(files, trace + [LSync(|s.log|)] + [LSynced(t)], DurableState(s, t))
  {
    TakeStep(files, trace, s, LSync(|s.log|));
    TakeStep(files, trace + [LSync(|s.log|)], s.(synced := |s.log|), LSynced(t));
  }

  /** The steps of an abort are steps of the engine exactly if its first one is. */
  lemma AbortSteps(files: Disk, trace: seq<Label>, s: State, t: TxnId, l: Label) returns (trace1: seq<Label>)
    requires Reached(files, trace, s) && t in s.txns && s.txns[t].dirtied <= s.cache.Keys
    requires l == LAbortStart(t) || l == LAbortFailed(t)
    ensures Reached(files, trace1, Aborted(s, t)) <==> Enabled(s, l)
  {
    var rest := AbortRun(s, t);
    trace1 := trace + [l] + rest;
    if Enabled(s, l) {
      TakeStep(files, trace, s, l);
      RunConcat(Initial(files), trace + [l], rest);
    }
    if IsRun(Initial(files), trace1) {
      PrefixIsRun(files, trace1, |trace| + 1);
      assert trace1[..|trace| + 1] == trace + [l] && (trace + [l])[..|trace|] == trace;
    }
  }

  /** An abort is a run of the engine unless it takes back a change after the Commit record. */
  lemma AbortVerdict(files: Disk, trace: seq<Label>, s: State, t: TxnId) returns (trace1: seq<Label>)
    requires Reached(files, trace, s) && (Active(s, t) || (t in s.txns && s.txns[t].phase.Syncing?))
    ensures Reached(files, trace1, Aborted(s, t)) <==> Active(s, t) || Unchanged(s, t)
    ensures Reached(files, trace1, Aborted(s, t)) ==>
              forall p :: p in s.txns[t].dirtied ==> Lookup(s.disk, p) == Lookup(SerialState(s), p)
  {
    DirtiedFacts(files, trace, s, t);
    var l := if Active(s, t) then LAbortStart(t) else LAbortFailed(t);
    trace1 := AbortSteps(files, trace, s, t, l);
    if Enabled(s, l) { UndoneFacts(files, trace, s, t, l); }
  }

  /** The state once every page still to be forced has been written. */
  function AllForced(s: State, t: TxnId): State
    requires t in s.txns && s.txns[t].phase.Forcing?
  {
    var todo := s.txns[t].phase.todo;
    SetPhase(s, t, Forcing(s.txns[t].phase.at, {}))
      .(disk := Flushed(s.disk, s.cache, s.dirty, todo), dirty := s.dirty - todo, forced := s.forced + todo)
  }

  lemma AllForcedStep(s: State, t: TxnId, key: PageKey)
    requires t in s.txns && s.txns[t].phase.Forcing? && key in s.txns[t].phase.todo
    requires s.txns[t].phase.todo <= s.cache.Keys && s.txns[t].phase.todo <= s.dirty
    ensures AllForced(DoForce(s, t, key), t) == AllForced(s, t)
  {
    var s1, todo, at := DoForce(s, t, key), s.txns[t].phase.todo, s.txns[t].phase.at;
    SetPhaseTwice(s, s1, t, Forcing(at, todo - {key}), Forcing(at, {}));
    FlushedRest(s.disk, s.cache, s.dirty, todo, key);
    assert s1.dirty - (todo - {key}) == s.dirty - todo;
    assert s1.forced + (todo - {key}) == s.forced + todo;
  }

  /** The file writes of FlushPages, one engine step each. */
  lemma {:induction false} ForceAll(files: Disk, trace: seq<Label>, s: State, t: TxnId) returns (trace1: seq<Label>)
    requires Reached(files, trace, s) && t in s.txns && s.txns[t].phase.Forcing?
    requires s.txns[t].phase.todo <= s.cache.Keys && s.txns[t].phase.todo <= s.dirty
    ensures Reached(files, trace1, AllForced(s, t))
    decreases s.txns[t].phase.todo
  {
    var todo := s.txns[t].phase.todo;
    if todo == {} {
      assert Flushed(s.disk, s.cache, s.dirty, {}) == s.disk;
      assert s.txns[t := s.txns[t]] == s.txns;
      assert AllForced(s, t) == s;
      trace1 := trace;
    } else {
      var key :| key in todo;
      TakeStep(files, trace, s, LForce(t, key));
      AllForcedStep(s, t, key);
      trace1 := ForceAll(files, trace + [LForce(t, key)], DoForce(s, t, key), t);
    }
  }

  /** Records were appended, this one last. */
  ghost predicate GrewTo(before: seq<Record>, log: seq<Record>, last: Record) {
    before < log && log[|log| - 1] == last
  }

  class TransactionManager {
    const pool: BufferPool
    const lockManager: LockManager
    var log: seq<Record>
    var synced: nat
    var dirtied: map<TxnId, set<PageKey>>     // active_txns_ and the pages each has dirtied
    var nextTxn: TxnId
    ghost const files: Disk
    ghost var trace: seq<Label>
    ghost var st: State

    /** The objects show the engine state. */
    ghost predicate Tied()
      reads this, pool, lockManager
    {
      && st.cache == pool.pages && st.dirty == pool.dirty && st.disk == pool.file
      && st.locks == lockManager.locks && lockManager.Valid()
      && st.log == log && st.synced == synced && st.nextTxn == nextTxn
      && st.txns.Keys == dirtied.Keys && (forall t :: t in dirtied ==> st.txns[t].dirtied == dirtied[t])
    }

    ghost predicate Valid()
      reads this, pool, lockManager
    {
      Tied() && Reached(files, trace, st)
    }

    constructor (pool: BufferPool, lockManager: LockManager)
      requires pool.pages == map[] && pool.dirty == {} && lockManager.Valid() && lockManager.locks == map[]
      ensures Valid() && st == Initial(pool.file) && this.pool == pool && this.lockManager == lockManager
    {
      this.pool, this.lockManager := pool, lockManager;
      log, synced, dirtied, nextTxn := [], 0, map[], 1;
      files, trace, st := pool.file, [], Initial(pool.file);
    }

    method BeginTxn() returns (t: TxnId)
      requires Valid()
      modifies this
      ensures Valid() && st == DoBegin(old(st)) && t == old(nextTxn) && Active(st, t)
    {
      t := nextTxn;
      NewIdIsFresh(files, trace, st);
      TakeStep(files, trace, st, LBegin);
      trace, st := trace + [LBegin], DoBegin(st);
      nextTxn := nextTxn + 1;
      log := log + [Begin(t)];
      dirtied := dirtied[t := {}];
    }

    // ----- what a running transaction does with pages

    /** One pass of AcquireLock: granted, asleep, or the victim, in which case nothing changes and the caller aborts. */
    method Acquire(t: TxnId, key: PageKey, mode: LockMode) returns (v: Verdict)
      requires Valid() && Active(st, t) && key in pool.file
      modifies this`trace, this`st, lockManager
      ensures Valid() && v == Request(old(lockManager.locks), t, key, mode)
      ensures st == if v.MustDie? then old(st) else DoAcquire(old(st), t, key, mode)
      ensures v.MustWait? <==> t in st.sleepers
    {
      v := lockManager.AcquireOnce(t, key, mode);
      if !v.MustDie? {
        TakeStep(files, trace, st, LAcquire(t, key, mode));
        trace, st := trace + [LAcquire(t, key, mode)], DoAcquire(st, t, key, mode);
      }
    }

    /** A notified or spuriously woken sleeper goes back to the head of its loop. */
    ghost method Wake(t: TxnId)
      requires Valid() && t in st.sleepers
      modifies this`trace, this`st
      ensures Valid() && st == DoWake(old(st), t)
    {
      TakeStep(files, trace, st, LWake(t));
      trace, st := trace + [LWake(t)], DoWake(st, t);
    }

    /** FetchPage under a lock: the page as the serial execution has it. */
    method ReadPage(t: TxnId, key: PageKey) returns (image: Image)
      requires Valid() && Active(st, t) && HoldsS(lockManager.locks, t, key)
      modifies this`trace, this`st, pool`pages
      ensures Valid() && st == DoRead(old(st), t, key) && image == View(old(st), key)
      ensures image == Lookup(Exec(SerialState(st), old(st.txns[t].ops)), key)
    {
      LockedFacts(files, trace, st, t, key);
      var r := pool.FetchPage(key);
      image := r.value;
      TakeStep(files, trace, st, LRead(t, key));
      trace, st := trace + [LRead(t, key)], DoRead(st, t, key);
    }

    /** A fetched page edited under an exclusive lock; the observer notes it for the transaction. */
    method WritePage(t: TxnId, key: PageKey, image: Image)
      requires Valid() && Active(st, t) && HoldsX(lockManager.locks, t, key) && key in pool.pages
      modifies this`trace, this`st, this`dirtied, pool`pages, pool`dirty
      ensures Valid() && st == DoWrite(old(st), t, key, image) && dirtied[t] == old(dirtied[t]) + {key}
    {
      pool.Update(key, image);
      TakeStep(files, trace, st, LWrite(t, key, image));
      trace, st := trace + [LWrite(t, key, image)], DoWrite(st, t, key, image);
      dirtied := dirtied[t := dirtied[t] + {key}];
    }

    method TakeNewPage(t: TxnId, key: PageKey)
      requires lockManager.Valid() && key !in lockManager.locks && key !in pool.file
      modifies pool, lockManager
      ensures lockManager.Valid() && lockManager.locks == old(lockManager.locks)[key := LockEntry({}, Some(t))]
      ensures pool.file == old(pool.file)[key := ZeroPage()] && pool.pages == old(pool.pages)[key := ZeroPage()]
      ensures pool.dirty == old(pool.dirty) + {key}
    {
      pool.NewPage(key);
      var v := lockManager.AcquireOnce(t, key, Exclusive);
      assert v == Granted(lockManager.locks[key := LockEntry({}, Some(t))]);
    }

    /** A page added to a file, locked for the transaction that added it. */
    method AddPage(t: TxnId, key: PageKey)
      requires Valid() && Active(st, t) && key !in pool.file
      modifies this`trace, this`st, this`dirtied, pool, lockManager
      ensures Valid() && st == DoNewPage(old(st), t, key) && dirtied[t] == old(dirtied[t]) + {key}
    {
      FreshIsUnlocked(files, trace, st, key);
      TakeNewPage(t, key);
      TakeStep(files, trace, st, LNewPage(t, key));
      trace, st := trace + [LNewPage(t, key)], DoNewPage(st, t, key);
      dirtied := dirtied[t := dirtied[t] + {key}];
    }

    /**
     Logs the image of every page the transaction dirtied, then its Commit record, makes the log
     durable, forces exactly those pages to the file, and only then releases the locks. If the fsync
     fails, Commit throws with the Commit record in the log, the pages in the cache and the locks held.
     */
    method CommitTxn(t: TxnId, fsyncs: bool) returns (ok: bool)
      requires Valid() && Active(st, t)
      modifies this, pool, lockManager
      ensures Valid() && ok == fsyncs
      ensures st.history == old(st.history) + [Done(t, old(st.txns[t].ops))]
      ensures GrewTo(old(log), log, Commit(t)) && pool.pages == old(pool.pages)
      ensures ok ==> st.returned == old(st.returned) + {t} && t !in st.txns && synced == |log|
      ensures ok ==> pool.file == Flushed(old(pool.file), old(pool.pages), old(pool.dirty), old(dirtied[t]))
      ensures ok ==> forall p :: p in old(dirtied[t]) ==>
                p in pool.file && pool.file[p] == Lookup(SerialState(st), p)
      ensures ok ==> lockManager.locks == Released(old(lockManager.locks), t)
      ensures !ok ==> t in st.txns && st.txns[t].phase == Syncing(|log| - 1) && dirtied == old(dirtied)
      ensures !ok ==> st.returned == old(st.returned) && synced == old(synced)
      ensures !ok ==> pool.file == old(pool.file) && pool.dirty == old(pool.dirty)
      ensures !ok ==> lockManager.locks == old(lockManager.locks)
    {
      var mine := dirtied[t];
      LogCommit(t, mine);
      if !fsyncs { return false; }
      Complete(t, mine);
      return true;
    }

    /** What follows the Commit record when the fsync succeeds. */
    method Complete(t: TxnId, mine: set<PageKey>)
      requires Valid() && t in st.txns && st.txns[t].phase.Syncing? && st.txns[t].phase.at < |log| && synced <= |log|
      requires mine == st.txns[t].dirtied && mine <= pool.pages.Keys && mine <= pool.dirty
      modifies this`synced, this`st, this`trace, this`dirtied, pool`file, pool`dirty, lockManager
      ensures Valid() && st.returned == old(st.returned) + {t} && t !in st.txns && st.history == old(st.history)
      ensures synced == |log| && pool.file == Flushed(old(pool.file), pool.pages, old(pool.dirty), mine)
      ensures forall p :: p in mine ==> p in pool.file && pool.file[p] == Lookup(SerialState(st), p)
      ensures lockManager.locks == Released(old(lockManager.locks), t)
    {
      Sync(t);
      ForceAndLeave(t, mine);
    }

    /** Both kinds of records, up to the Commit. */
    method LogCommit(t: TxnId, mine: set<PageKey>)
      requires Valid() && Active(st, t) && mine == dirtied[t]
      modifies this`log, this`st, this`trace, pool`pages
      ensures Valid() && pool.pages == old(pool.pages) && mine <= pool.pages.Keys && mine <= pool.dirty
      ensures GrewTo(old(log), log, Commit(t)) && synced <= |log|
      ensures t in st.txns && st.txns[t].phase == Syncing(|log| - 1) && st.txns[t].dirtied == mine
      ensures st.history == old(st.history) + [Done(t, old(st.txns[t].ops))] && st.returned == old(st.returned)
    {
      DirtiedFacts(files, trace, st, t);
      LogUpdates(t, mine);
      AppendCommit(t);
    }

    method ForceAndLeave(t: TxnId, mine: set<PageKey>)
      requires Valid() && t in st.txns && st.txns[t].phase.Forcing?
      requires st.txns[t].phase.todo == mine == st.txns[t].dirtied
      requires mine <= pool.pages.Keys && mine <= pool.dirty
      modifies this`st, this`trace, this`dirtied, pool`file, pool`dirty, lockManager
      ensures Valid() && st.returned == old(st.returned) + {t} && t !in st.txns && st.history == old(st.history)
      ensures pool.file == Flushed(old(pool.file), pool.pages, old(pool.dirty), mine)
      ensures forall p :: p in mine ==> p in pool.file && pool.file[p] == Lookup(SerialState(st), p)
      ensures lockManager.locks == Released(old(lockManager.locks), t)
    {
      ForcePages(t, mine);
      assert forall p :: p in mine ==> p in pool.file && pool.file[p] == Lookup(SerialState(st), p) by {
        ForcedFacts(files, trace, st, t);
      }
      Finish(t);
    }

    /** The first loop of Commit: one Update record per dirtied page. */
    method LogUpdates(t: TxnId, mine: set<PageKey>)
      requires Valid() && Active(st, t) && mine == dirtied[t] && mine <= pool.pages.Keys
      modifies this`log, this`st, this`trace, pool`pages
      ensures Valid() && pool.pages == old(pool.pages)
      ensures st == LoggedState(old(st), t, mine, log)
      ensures old(log) <= log
    {
      LogStart(files, trace, st, t);
      trace := trace + [LCommitStart(t)];
      var rest := mine;
      assert mine - rest == {};
      while rest != {}
        invariant rest <= mine && pool.pages == old(pool.pages) && st == old(st)
        invariant Reached(files, trace, LoggedState(st, t, mine - rest, log))
        invariant old(log) <= log
        decreases rest
      {
        var key :| key in rest;
        var page := pool.FetchPage(key);
        LogStep(files, trace, st, t, mine - rest, log, key);
        assert mine - (rest - {key}) == mine - rest + {key};
        trace := trace + [LLogUpdate(t, key)];
        log := log + [Update(t, key, page.value)];
        rest := rest - {key};
      }
      assert mine - rest == mine;
      st := LoggedState(st, t, mine, log);
    }

    method AppendCommit(t: TxnId)
      requires Valid() && t in st.txns && st.txns[t].phase == Logging(st.txns[t].dirtied)
      modifies this`log, this`st, this`trace
      ensures Valid() && log == old(log) + [Commit(t)] && st == DoLogCommit(old(st), t)
    {
      TakeStep(files, trace, st, LLogCommit(t));
      trace, st := trace + [LLogCommit(t)], DoLogCommit(st, t);
      log := log + [Commit(t)];
    }

    /** FlushThrough: from here on the transaction survives a crash. */
    method Sync(t: TxnId)
      requires Valid() && t in st.txns && st.txns[t].phase.Syncing? && st.txns[t].phase.at < |log| && synced <= |log|
      modifies this`synced, this`st, this`trace
      ensures Valid() && synced == |log| && st == DurableState(old(st), t)
    {
      SyncSteps(files, trace, st, t);
      trace, st := trace + [LSync(|log|)] + [LSynced(t)], DurableState(st, t);
      synced := |log|;
    }

    /** Forces the transaction's own pages. */
    method ForcePages(t: TxnId, mine: set<PageKey>)
      requires Valid() && t in st.txns && st.txns[t].phase.Forcing? && st.txns[t].phase.todo == mine
      requires mine == st.txns[t].dirtied
      requires mine <= pool.pages.Keys && mine <= pool.dirty
      modifies this`st, this`trace, pool`file, pool`dirty
      ensures Valid() && st == AllForced(old(st), t)
      ensures pool.file == Flushed(old(pool.file), pool.pages, old(pool.dirty), mine)
      ensures forall p :: p in mine ==> p in pool.file && pool.file[p] == pool.pages[p]
    {
      pool.FlushPages(mine);
      assert mine * pool.pages.Keys == mine;
      trace := ForceAll(files, trace, st, t);
      st := AllForced(st, t);
    }

    /**
     Reloads every page the transaction dirtied, logs the Abort and releases the locks: of a running transaction, or
     of one whose Commit threw. The second is a run of the engine exactly if no change is taken back.
     */
    method AbortTxn(t: TxnId)
      requires Valid() && (Active(st, t) || (t in st.txns && st.txns[t].phase.Syncing?))
      modifies this, pool, lockManager
      ensures Tied() && st.history == old(st.history) && t !in st.txns
      ensures pool.file == old(pool.file) && log == old(log) + [Abort(t)]
      ensures pool.pages == Discarded(old(pool.pages), pool.file, old(dirtied[t]))
      ensures lockManager.locks == Released(old(lockManager.locks), t)
      ensures Valid() <==> old(Active(st, t)) || Unchanged(old(st), t)
      ensures Valid() ==> forall p :: p in old(dirtied[t]) ==>
                p in pool.pages && pool.pages[p] == Lookup(SerialState(st), p)
    {
      DirtiedFacts(files, trace, st, t);
      ghost var trace1 := AbortVerdict(files, trace, st, t);
      DiscardPages(dirtied[t]);
      log := log + [Abort(t)];
      Release(t);
      trace, st := trace1, Aborted(st, t);
    }

    /** ReleaseAll, and the transaction leaves the active set. */
    method Release(t: TxnId)
      requires lockManager.Valid()
      modifies this`dirtied, lockManager
      ensures lockManager.Valid() && lockManager.locks == Released(old(lockManager.locks), t)
      ensures dirtied == old(dirtied) - {t}
    {
      var _ := lockManager.ReleaseAll(t);
      dirtied := dirtied - {t};
    }

    method DiscardPages(mine: set<PageKey>)
      requires mine <= pool.pages.Keys <= pool.file.Keys
      modifies pool`pages, pool`dirty
      ensures pool.pages == Discarded(old(pool.pages), pool.file, mine) && pool.dirty == old(pool.dirty) - mine
    {
      var rest := mine;
      assert mine - rest == {};
      assert pool.pages == Discarded(pool.pages, pool.file, {});
      while rest != {}
        invariant rest <= mine && pool.pages == Discarded(old(pool.pages), pool.file, mine - rest)
        invariant pool.dirty == old(pool.dirty) - (mine - rest)
        decreases rest
      {
        var key :| key in rest;
        DiscardedStep(old(pool.pages), pool.file, mine - rest, key);
        assert mine - (rest - {key}) == mine - rest + {key};
        pool.DiscardPage(key);
        rest := rest - {key};
      }
      assert mine - rest == mine;
    }

    method Finish(t: TxnId)
      requires Valid() && Enabled(st, LCommitEnd(t))
      modifies this`st, this`trace, this`dirtied, lockManager
      ensures Valid() && st == Do(old(st), LCommitEnd(t))
      ensures lockManager.locks == Released(old(lockManager.locks), t)
    {
      TakeStep(files, trace, st, LCommitEnd(t));
      trace, st := trace + [LCommitEnd(t)], Do(st, LCommitEnd(t));
      Release(t);
    }
  }
}
