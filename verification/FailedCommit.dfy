/**
 Aborting a transaction whose Commit threw. The fsync fails after the Commit record was appended
 (src/txn/transaction_manager.cpp:86-95, src/wal/log_manager.cpp:301-303); the session then calls Abort
 (src/sql/session.cpp:77-85), which reloads the pages, appends an Abort record and releases the locks
 (src/txn/transaction_manager.cpp:112-142). The Commit record stays, and recovery looks for nothing else
 (src/wal/recovery.cpp:9-26). When that is harmless, exactly, and what happens when it is not.
 */
module FailedCommit {
  import opened Wrappers
  import opened Locks
  import opened Serial
  import opened Recovery
  import opened EngineInv
  import opened EngineSteps
  import opened EngineCommit
  import opened EngineRuns
  import opened EngineTheorems
  import opened GroupedEngine
  import E = Engine
  import G = GroupCommit

  // ----- one abort

  /** The invariant survives the abort exactly if the pages on file are what the transaction left in the cache. */
  lemma AbortKeepsInvIff(s: E.State, t: TxnId)
    requires Inv(s) && t in s.txns && s.txns[t].phase.Syncing?
    ensures Inv(E.SetPhase(s, t, E.Undoing(s.txns[t].dirtied))) <==> E.Unchanged(s, t)
    ensures E.Unchanged(s, t) <==>
            forall p :: p in s.txns[t].dirtied ==> Lookup(s.disk, p) == Lookup(E.SerialState(s), p)
  {
    var s1 := E.SetPhase(s, t, E.Undoing(s.txns[t].dirtied));
    UnchangedIff(s, t);
    if E.Unchanged(s, t) {
      StepAbortFailed(s, t);
    }
    if Inv(s1) {
      forall p | p in s.txns[t].dirtied ensures Lookup(s.disk, p) == Lookup(E.SerialState(s), p) {
        NobodyForces(s, t, s1, p);
      }
    }
  }

  lemma NobodyForces(s: E.State, t: TxnId, s1: E.State, p: PageKey)
    requires LocksOk(s) && TxnsOk(s) && t in s.txns && p in s.txns[t].dirtied
    requires s1 == E.SetPhase(s, t, E.Undoing(s.txns[t].dirtied))
    ensures !IsUnforced(s1, p)
  {
    if IsUnforced(s1, p) {
      var u :| u in s1.txns && p in Unforced(s1.txns[u]);
      ForcesOwn(s, t, u, p);
    }
  }

  // ----- what is right

  /** Readers see what a crash with the whole log kept would bring back. */
  ghost predicate Shown(s: E.State) {
    forall p :: !IsUnsettled(s, p) ==> E.View(s, p) == Lookup(Recovered(s.init, s.log), p)
  }

  /** The committed transactions are serializable, every crash is recovered exactly, and readers see what that gives. */
  ghost predicate Right(s: E.State) {
    && Serializable(s.init, s.history) && Shown(s)
    && forall kept, disk :: CrashLeaves(s, kept, disk) ==> RecoversTo(s, kept, disk)
  }

  lemma InvIsRight(s: E.State)
    requires Inv(s)
    ensures Right(s)
  {
    forall kept, disk | CrashLeaves(s, kept, disk) ensures RecoversTo(s, kept, disk) {
      InvRecovers(s, kept, disk);
    }
    assert PrefixOk(s.init, s.log, s.history, |s.log|);
    assert s.log[..|s.log|] == s.log && s.history[..|s.history|] == s.history;
  }

  /** All goes right from here on, as long as no further abort takes back a change. */
  ghost predicate StaysRight(s: State) {
    forall more :: IsRun(s, more) && Unspoiled(s, more) ==> Right(After(s, more).engine)
  }

  lemma {:induction false} UnspoiledInv(s: State, ls: seq<Label>)
    requires Inv(s.engine) && Coupled(s) && IsRun(s, ls) && Unspoiled(s, ls)
    ensures Inv(After(s, ls).engine) && Coupled(After(s, ls))
  {
    if ls != [] {
      var n := |ls| - 1;
      UnspoiledInv(s, ls[..n]);
      UnspoiledStep(After(s, ls[..n]), ls[n]);
    }
  }

  lemma UnspoiledStep(s: State, l: Label)
    requires Inv(s.engine) && Coupled(s) && Enabled(s, l) && !Spoils(s, l)
    ensures Inv(Step(s, l).engine) && Coupled(Step(s, l))
  {
    var els, _ := StepSplits(s, l);
    if els != [] { StepInv(s.engine, els[0]); }
  }

  lemma InvStaysRight(s: State)
    requires Inv(s.engine) && Coupled(s)
    ensures StaysRight(s)
  {
    forall more | IsRun(s, more) && Unspoiled(s, more) ensures Right(After(s, more).engine) {
      UnspoiledInv(s, more);
      InvIsRight(After(s, more).engine);
    }
  }

  lemma InitialIsRight(files: Disk)
    ensures Inv(Initial(files).engine) && Coupled(Initial(files))
  {
    InitialInv(files);
  }

  // ----- an abort that takes back a change

  /** A step that leaves the log to the other threads and aborts nothing after its Commit record. */
  ghost predicate Plain(l: E.Label) {
    !l.LSync? && !l.LSynced? && !l.LAbortFailed?
  }

  ghost predicate AllPlain(ls: seq<E.Label>) {
    forall i :: 0 <= i < |ls| ==> Plain(ls[i])
  }

  lemma PlainConcat(a: seq<E.Label>, b: seq<E.Label>)
    requires AllPlain(a) && AllPlain(b)
    ensures AllPlain(a + b)
  {
  }

  lemma AbortRuns(s: E.State, t: TxnId) returns (ls: seq<E.Label>)
    requires t in s.txns && s.txns[t].dirtied <= s.cache.Keys
    ensures var s1 := E.SetPhase(s, t, E.Undoing(s.txns[t].dirtied));
            E.IsRun(s1, ls) && E.After(s1, ls) == Aborted(s, t)
    ensures AllPlain(ls)
  {
    ls := AbortRun(s, t);
    forall i | 0 <= i < |ls| ensures Plain(ls[i]) { assert ls[i] in ls; }
  }

  /** The page is free, and shows something else than what the committed transactions left. */
  ghost predicate Stale(s: E.State, p: PageKey) {
    && p !in s.locks && p in s.cache && p in s.disk && s.nextTxn !in s.sleepers
    && Lookup(ExecAll(s.init, s.history), p) != s.cache[p]
  }

  lemma AbortedIsStale(s: E.State, t: TxnId, p: PageKey)
    requires Inv(s) && t in s.txns && s.txns[t].phase.Syncing?
    requires p in s.txns[t].dirtied && E.View(s, p) != Lookup(s.disk, p)
    ensures Stale(Aborted(s, t), p)
    ensures Aborted(s, t).cache[p] == Lookup(s.disk, p) && Aborted(s, t).log == s.log + [Abort(t)]
  {
    assert TxnOk(s, t, s.txns[t]);
    DirtiedLocked(s, t, p);
    assert Holders(WithoutTxn(s.locks[p], t)) == {};
    FreshId(s);
  }

  /** A new transaction reads the page and commits. */
  function Reader(u: TxnId, p: PageKey): (ls: seq<E.Label>)
    ensures AllPlain(ls)
  {
    [E.LBegin] + [E.LAcquire(u, p, Shared)] + [E.LRead(u, p)] + [E.LCommitStart(u)] + [E.LLogCommit(u)]
  }

  lemma ReaderStarts(s: E.State, p: PageKey)
    requires p in s.disk && p !in s.locks && s.nextTxn !in s.sleepers
    ensures var ls := [E.LBegin] + [E.LAcquire(s.nextTxn, p, Shared)];
            && E.IsRun(s, ls)
            && var e := E.After(s, ls);
               && e.cache == s.cache && e.init == s.init && e.history == s.history && e.disk == s.disk
               && e.log == s.log + [Begin(s.nextTxn)] && e.sleepers == s.sleepers
               && s.nextTxn in e.txns && e.txns[s.nextTxn] == E.Txn(E.Running, [], {})
               && E.HoldsS(e.locks, s.nextTxn, p)
  {
    RunSnoc(s, [], E.LBegin);
    assert [] + [E.LBegin] == [E.LBegin];
    RunSnoc(s, [E.LBegin], E.LAcquire(s.nextTxn, p, Shared));
  }

  lemma ReaderReads(s: E.State, p: PageKey)
    requires p in s.disk && p !in s.locks && s.nextTxn !in s.sleepers && p in s.cache
    ensures var ls := [E.LBegin] + [E.LAcquire(s.nextTxn, p, Shared)] + [E.LRead(s.nextTxn, p)];
            && E.IsRun(s, ls)
            && var e := E.After(s, ls);
               && e.init == s.init && e.history == s.history && e.log == s.log + [Begin(s.nextTxn)]
               && s.nextTxn !in e.sleepers && s.nextTxn in e.txns
               && e.txns[s.nextTxn] == E.Txn(E.Running, [Read(p, s.cache[p])], {})
  {
    ReaderStarts(s, p);
    var ls := [E.LBegin] + [E.LAcquire(s.nextTxn, p, Shared)];
    RunSnoc(s, ls, E.LRead(s.nextTxn, p));
    assert [] + [Read(p, s.cache[p])] == [Read(p, s.cache[p])];
  }

  lemma ReaderCommits(s: E.State, p: PageKey)
    requires p in s.disk && p !in s.locks && s.nextTxn !in s.sleepers && p in s.cache
    ensures var ls := Reader(s.nextTxn, p);
            && E.IsRun(s, ls)
            && var e := E.After(s, ls);
               && e.init == s.init && e.history == s.history + [Done(s.nextTxn, [Read(p, s.cache[p])])]
               && e.log == s.log + [Begin(s.nextTxn)] + [Commit(s.nextTxn)]
  {
    ReaderReads(s, p);
    var ls := [E.LBegin] + [E.LAcquire(s.nextTxn, p, Shared)] + [E.LRead(s.nextTxn, p)];
    RunSnoc(s, ls, E.LCommitStart(s.nextTxn));
    RunSnoc(s, ls + [E.LCommitStart(s.nextTxn)], E.LLogCommit(s.nextTxn));
  }

  /** A transaction that read something else than the committed ones left is not serializable behind them. */
  lemma WrongRead(init: Disk, history: seq<Done>, u: TxnId, p: PageKey, image: Image)
    requires Lookup(ExecAll(init, history), p) != image
    ensures !Serializable(init, history + [Done(u, [Read(p, image)])])
  {
    var h, ops := history + [Done(u, [Read(p, image)])], [Read(p, image)];
    assert h[..|history|] == history && h[|history|].ops == ops;
    assert ops[..0] == [] && !Replays(ExecAll(init, history), ops);
  }

  /**
   If the abort takes back a change, a transaction that begins afterwards reads the old page and commits, although
   the log has the Commit record of the change.
   */
  lemma SpoiledGoesWrong(s: E.State, t: TxnId, p: PageKey) returns (ls: seq<E.Label>)
    requires Inv(s) && t in s.txns && s.txns[t].phase.Syncing?
    requires p in s.txns[t].dirtied && E.View(s, p) != Lookup(s.disk, p)
    ensures var s1 := E.SetPhase(s, t, E.Undoing(s.txns[t].dirtied));
            E.IsRun(s1, ls) && !Serializable(E.After(s1, ls).init, E.After(s1, ls).history)
    ensures AllPlain(ls)
  {
    DirtiedCached(s, t);
    AbortedIsStale(s, t, p);
    var first := AbortRuns(s, t);
    WrongReader(E.SetPhase(s, t, E.Undoing(s.txns[t].dirtied)), first, Aborted(s, t), p);
    PlainConcat(first, Reader(Aborted(s, t).nextTxn, p));
    ls := first + Reader(Aborted(s, t).nextTxn, p);
  }

  lemma DirtiedCached(s: E.State, t: TxnId)
    requires TxnsOk(s) && t in s.txns && s.txns[t].phase.Syncing?
    ensures s.txns[t].dirtied <= s.cache.Keys
  {
    assert TxnOk(s, t, s.txns[t]);
  }

  lemma WrongReader(s1: E.State, first: seq<E.Label>, s2: E.State, p: PageKey)
    requires E.IsRun(s1, first) && E.After(s1, first) == s2 && Stale(s2, p)
    ensures var ls := first + Reader(s2.nextTxn, p);
            E.IsRun(s1, ls) && !Serializable(E.After(s1, ls).init, E.After(s1, ls).history)
  {
    ReaderCommits(s2, p);
    WrongRead(s2.init, s2.history, s2.nextTxn, p, s2.cache[p]);
    RunConcat(s1, first, Reader(s2.nextTxn, p));
  }

  // ----- the joint runs

  function Acts(ls: seq<E.Label>): (r: seq<Label>)
    ensures |r| == |ls| && forall i :: 0 <= i < |ls| ==> r[i] == Act(ls[i])
  {
    seq(|ls|, i requires 0 <= i < |ls| => Act(ls[i]))
  }

  lemma {:induction false} ActsRun(s: State, ls: seq<E.Label>)
    requires E.IsRun(s.engine, ls) && AllPlain(ls)
    ensures IsRun(s, Acts(ls)) && Unspoiled(s, Acts(ls))
    ensures After(s, Acts(ls)).engine == E.After(s.engine, ls)
  {
    if ls != [] {
      var n := |ls| - 1;
      ActsRun(s, ls[..n]);
      assert Acts(ls)[..n] == Acts(ls[..n]);
      assert Plain(ls[n]);
    }
  }

  lemma SpoilsForGood(s: State, l: Label)
    requires Inv(s.engine) && Enabled(s, l) && Spoils(s, l)
    ensures !StaysRight(Step(s, l))
  {
    var p :| p in s.engine.txns[l.t].dirtied && E.View(s.engine, p) != Lookup(s.engine.disk, p);
    var ls := SpoiledGoesWrong(s.engine, l.t, p);
    ActsRun(Step(s, l), ls);
    assert !Right(After(Step(s, l), Acts(ls)).engine);
  }

  /**
   In any run that went right so far: aborting a transaction whose Commit threw keeps everything right, over every
   continuation and every crash, if and only if what it changed is already on file.
   */
  lemma SafeToAbortIff(files: Disk, ls: seq<Label>, t: TxnId)
    requires IsRun(Initial(files), ls) && Unspoiled(Initial(files), ls)
    requires Enabled(After(Initial(files), ls), AbortFailed(t))
    ensures var s := After(Initial(files), ls);
            StaysRight(Step(s, AbortFailed(t))) <==> E.Unchanged(s.engine, t)
  {
    InitialIsRight(files);
    UnspoiledInv(Initial(files), ls);
    var s := After(Initial(files), ls);
    if E.Unchanged(s.engine, t) {
      UnspoiledStep(s, AbortFailed(t));
      InvStaysRight(Step(s, AbortFailed(t)));
    } else {
      SpoilsForGood(s, AbortFailed(t));
    }
  }

  // ----- whole runs

  lemma {:induction false} PrefixRuns(s: State, ls: seq<Label>, i: nat)
    requires IsRun(s, ls) && i <= |ls|
    ensures IsRun(s, ls[..i])
    decreases |ls|
  {
    if i == |ls| {
      assert ls[..i] == ls;
    } else {
      PrefixRuns(s, ls[..|ls| - 1], i);
      assert ls[..|ls| - 1][..i] == ls[..i];
    }
  }

  /** The state after the first `i` steps. */
  ghost function At(files: Disk, ls: seq<Label>, i: nat): State
    requires IsRun(Initial(files), ls) && i <= |ls|
  {
    PrefixRuns(Initial(files), ls, i);
    After(Initial(files), ls[..i])
  }

  lemma AtStep(files: Disk, ls: seq<Label>, i: nat)
    requires IsRun(Initial(files), ls) && i < |ls|
    ensures Enabled(At(files, ls, i), ls[i]) && At(files, ls, i + 1) == Step(At(files, ls, i), ls[i])
  {
    PrefixRuns(Initial(files), ls, i + 1);
    assert ls[..i + 1][..i] == ls[..i];
  }

  lemma {:induction false} UnspoiledPrefix(files: Disk, ls: seq<Label>, i: nat)
    requires IsRun(Initial(files), ls) && i <= |ls| && Unspoiled(Initial(files), ls)
    ensures Inv(At(files, ls, i).engine) && Coupled(At(files, ls, i))
  {
    if i == 0 {
      InitialIsRight(files);
    } else {
      UnspoiledPrefix(files, ls, i - 1);
      AtStep(files, ls, i - 1);
      UnspoiledAt(files, ls, i - 1);
      UnspoiledStep(At(files, ls, i - 1), ls[i - 1]);
    }
  }

  lemma {:induction false} UnspoiledAt(files: Disk, ls: seq<Label>, i: nat)
    requires IsRun(Initial(files), ls) && i < |ls| && Unspoiled(Initial(files), ls)
    ensures !Spoils(At(files, ls, i), ls[i])
    decreases |ls|
  {
    var n := |ls| - 1;
    if i < n {
      UnspoiledAt(files, ls[..n], i);
      assert ls[..n][..i] == ls[..i];
    }
  }

  /** The first abort that takes back a change. */
  lemma {:induction false} FirstSpoiled(files: Disk, ls: seq<Label>) returns (i: nat)
    requires IsRun(Initial(files), ls) && !Unspoiled(Initial(files), ls)
    ensures i < |ls| && Spoils(At(files, ls, i), ls[i]) && Inv(At(files, ls, i).engine)
    decreases |ls|
  {
    var n := |ls| - 1;
    if Unspoiled(Initial(files), ls[..n]) {
      i := n;
      InitialIsRight(files);
      UnspoiledInv(Initial(files), ls[..n]);
    } else {
      i := FirstSpoiled(files, ls[..n]);
      assert ls[..n][..i] == ls[..i];
    }
  }

  /**
   A run stays right at every point and over every continuation if and only if no abort of a failed commit in it takes
   back a change.
   */
  lemma RunStaysRightIff(files: Disk, ls: seq<Label>)
    requires IsRun(Initial(files), ls)
    ensures (forall i :: 0 <= i <= |ls| ==> StaysRight(At(files, ls, i))) <==> Unspoiled(Initial(files), ls)
  {
    if Unspoiled(Initial(files), ls) {
      forall i | 0 <= i <= |ls| ensures StaysRight(At(files, ls, i)) {
        UnspoiledPrefix(files, ls, i);
        InvStaysRight(At(files, ls, i));
      }
    } else {
      var i := FirstSpoiled(files, ls);
      AtStep(files, ls, i);
      SpoilsForGood(At(files, ls, i), ls[i]);
      assert !StaysRight(At(files, ls, i + 1));
    }
  }
}
