/**
 When wait-die lets a cycle of waits close (src/txn/lock_manager.cpp:46-84): exactly when a transaction is sent to
 sleep on a page one of whose holders waits, directly or through others, for that transaction.
 */
module WaitCycles {
  import opened Wrappers
  import opened Locks
  import opened Serial
  import opened Engine
  import opened EngineInv
  import opened EngineTheorems
  import opened EngineRuns
  import opened WaitsFor

  /** `a` waits for `b`, directly or through others. */
  ghost predicate Reaches(s: State, a: TxnId, b: TxnId) {
    exists path :: WaitPath(s, path) && path[0] == a && path[|path| - 1] == b
  }

  ghost predicate Acyclic(s: State) {
    forall t :: !Reaches(s, t, t)
  }

  /** The requester is sent to sleep although a holder of the page waits for it. */
  ghost predicate Closes(s: State, l: Label) {
    && l.LAcquire? && Request(s.locks, l.t, l.key, l.mode).MustWait? && l.key in s.locks
    && exists h :: h in OtherHolders(s.locks[l.key], l.t) && Reaches(s, h, l.t)
  }

  // ----- paths

  lemma OneWait(s: State, a: TxnId, b: TxnId)
    requires Waits(s, a, b)
    ensures Reaches(s, a, b)
  {
    assert WaitPath(s, [a, b]);
  }

  lemma OneMore(s: State, a: TxnId, b: TxnId, c: TxnId)
    requires Reaches(s, a, b) && Waits(s, b, c)
    ensures Reaches(s, a, c)
  {
    var path :| WaitPath(s, path) && path[0] == a && path[|path| - 1] == b;
    assert WaitPath(s, path + [c]);
    assert (path + [c])[|path + [c]| - 1] == c;
  }

  lemma {:induction false} PathReaches(s: State, a: TxnId, path: seq<TxnId>)
    requires WaitPath(s, path) && Reaches(s, a, path[0])
    ensures Reaches(s, a, path[|path| - 1])
  {
    var n := |path| - 1;
    if n > 1 { PathReaches(s, a, path[..n]); }
    OneMore(s, a, path[n - 1], path[n]);
  }

  lemma Through(s: State, a: TxnId, b: TxnId, c: TxnId)
    requires Reaches(s, a, b) && Reaches(s, b, c)
    ensures Reaches(s, a, c)
  {
    var path :| WaitPath(s, path) && path[0] == b && path[|path| - 1] == c;
    PathReaches(s, a, path);
  }

  /** Every wait of `s` is one of `s1`. */
  ghost predicate MoreWaits(s: State, s1: State) {
    forall u, h :: Waits(s, u, h) ==> Waits(s1, u, h)
  }

  lemma ReachesMore(s: State, s1: State, a: TxnId, b: TxnId)
    requires MoreWaits(s, s1) && Reaches(s, a, b)
    ensures Reaches(s1, a, b)
  {
    var path :| WaitPath(s, path) && path[0] == a && path[|path| - 1] == b;
    assert WaitPath(s1, path);
  }

  // ----- steps that add waits

  /** A transaction that is awake waits for nobody: whoever waits for it closes no cycle. */
  lemma GrantKeepsAcyclic(s: State, s1: State, t: TxnId)
    requires Acyclic(s) && t !in s1.sleepers
    requires forall u, h :: Waits(s1, u, h) ==> Waits(s, u, h) || h == t
    ensures Acyclic(s1)
  {
    forall u ensures !Reaches(s1, u, u) {
      if Reaches(s1, u, u) {
        var path :| WaitPath(s1, path) && path[0] == u && path[|path| - 1] == u;
        forall i | 0 <= i < |path| - 1 ensures Waits(s, path[i], path[i + 1]) {
          assert Waits(s1, path[i], path[i + 1]);
          var j := if i + 1 < |path| - 1 then i + 1 else 0;
          assert Waits(s1, path[j], path[j + 1]);
        }
        assert WaitPath(s, path);
        assert Reaches(s, u, u);
      }
    }
  }

  /** From `a` one gets to `t` with the old waits, and from one of `hs` on to `b`. */
  ghost predicate Detour(s: State, a: TxnId, t: TxnId, hs: set<TxnId>, b: TxnId) {
    (a == t || Reaches(s, a, t)) && exists h :: h in hs && (h == b || Reaches(s, h, b))
  }

  ghost predicate NewWaits(s: State, s1: State, t: TxnId, hs: set<TxnId>) {
    forall u, h :: Waits(s1, u, h) <==> Waits(s, u, h) || (u == t && h in hs)
  }

  lemma {:induction false} OldOrDetour(s: State, s1: State, t: TxnId, hs: set<TxnId>, path: seq<TxnId>)
    requires NewWaits(s, s1, t, hs) && WaitPath(s1, path)
    ensures Reaches(s, path[0], path[|path| - 1]) || Detour(s, path[0], t, hs, path[|path| - 1])
  {
    var n := |path| - 1;
    assert Waits(s1, path[n - 1], path[n]);
    if n > 1 {
      OldOrDetour(s, s1, t, hs, path[..n]);
      LastWait(s, s1, t, hs, path[0], path[n - 1], path[n]);
    } else if Waits(s, path[0], path[1]) {
      OneWait(s, path[0], path[1]);
    }
  }

  lemma LastWait(s: State, s1: State, t: TxnId, hs: set<TxnId>, a: TxnId, b: TxnId, c: TxnId)
    requires NewWaits(s, s1, t, hs) && Waits(s1, b, c)
    requires Reaches(s, a, b) || Detour(s, a, t, hs, b)
    ensures Reaches(s, a, c) || Detour(s, a, t, hs, c)
  {
    if !Waits(s, b, c) {
      assert b == t && c in hs;
    } else if Reaches(s, a, b) {
      OneMore(s, a, b, c);
    } else {
      var h :| h in hs && (h == b || Reaches(s, h, b));
      if h == b { OneWait(s, b, c); } else { OneMore(s, h, b, c); }
      assert Reaches(s, h, c);
    }
  }

  lemma NewCycle(s: State, s1: State, t: TxnId, hs: set<TxnId>, u: TxnId)
    requires Acyclic(s) && NewWaits(s, s1, t, hs) && t !in hs && Reaches(s1, u, u)
    ensures exists h :: h in hs && Reaches(s, h, t)
  {
    var path :| WaitPath(s1, path) && path[0] == u && path[|path| - 1] == u;
    OldOrDetour(s, s1, t, hs, path);
    var h :| h in hs && (h == u || Reaches(s, h, u));
    if h != u && u != t { Through(s, h, u, t); }
    assert Reaches(s, h, t);
  }

  lemma WaitKeepsAcyclicIff(s: State, s1: State, t: TxnId, hs: set<TxnId>)
    requires Acyclic(s) && NewWaits(s, s1, t, hs) && t !in hs
    ensures Acyclic(s1) <==> !exists h :: h in hs && Reaches(s, h, t)
  {
    if h :| h in hs && Reaches(s, h, t) {
      ReachesMore(s, s1, h, t);
      OneWait(s1, t, h);
      Through(s1, t, h, t);
    } else {
      forall u ensures !Reaches(s1, u, u) {
        if Reaches(s1, u, u) { NewCycle(s, s1, t, hs, u); }
      }
    }
  }

  // ----- every step

  lemma QuietWaits(s: State, l: Label, u: TxnId, h: TxnId)
    requires Inv(s) && SleepersOk(s) && Enabled(s, l) && !l.LAcquire? && Waits(Do(s, l), u, h)
    ensures Waits(s, u, h)
  {
    if l.LNewPage? {
      assert SleeperOk(s.locks, u, s.sleepers[u]);
    } else {
      SleepersQuiet(s, l);
    }
  }

  lemma FewerWaits(s: State, s1: State)
    requires Acyclic(s) && MoreWaits(s1, s)
    ensures Acyclic(s1)
  {
    forall u ensures !Reaches(s1, u, u) {
      if Reaches(s1, u, u) { ReachesMore(s1, s, u, u); }
    }
  }

  /** A step keeps the waits free of cycles if and only if it does not send a transaction to sleep behind itself. */
  lemma StepKeepsAcyclicIff(s: State, l: Label)
    requires Inv(s) && SleepersOk(s) && Acyclic(s) && Enabled(s, l)
    ensures Acyclic(Do(s, l)) <==> !Closes(s, l)
  {
    if !l.LAcquire? {
      forall u, h | Waits(Do(s, l), u, h) ensures Waits(s, u, h) { QuietWaits(s, l, u, h); }
      FewerWaits(s, Do(s, l));
    } else if Request(s.locks, l.t, l.key, l.mode).Granted? {
      forall u, h | Waits(Do(s, l), u, h) ensures Waits(s, u, h) || h == l.t {
        GrantWaits(s, l.t, l.key, l.mode, u, h);
      }
      GrantKeepsAcyclic(s, Do(s, l), l.t);
    } else {
      WaitKeepsAcyclicIff(s, Do(s, l), l.t, OtherHolders(s.locks[l.key], l.t));
    }
  }

  // ----- over runs

  lemma SomebodySleeps(s: State, a: TxnId, b: TxnId)
    requires Reaches(s, a, b)
    ensures s.sleepers != map[]
  {
    var path :| WaitPath(s, path) && path[0] == a && path[|path| - 1] == b;
    assert Waits(s, path[0], path[1]);
  }

  lemma {:induction false} AcyclicUpTo(files: Disk, labels: seq<Label>, i: nat)
    requires IsRun(Initial(files), labels) && i <= |labels|
    requires forall k :: 0 <= k < i ==> !Closes(At(files, labels, k), labels[k])
    ensures Acyclic(At(files, labels, i))
  {
    if i == 0 {
      forall t ensures !Reaches(At(files, labels, 0), t, t) {
        if Reaches(At(files, labels, 0), t, t) { SomebodySleeps(At(files, labels, 0), t, t); }
      }
    } else {
      AcyclicUpTo(files, labels, i - 1);
      ReachedFacts(files, labels, i - 1);
      AtNext(files, labels, i - 1);
      StepKeepsAcyclicIff(At(files, labels, i - 1), labels[i - 1]);
    }
  }

  /** A run is free of cycles throughout if and only if none of its steps closes one. */
  lemma RunAcyclicIff(files: Disk, labels: seq<Label>)
    requires IsRun(Initial(files), labels)
    ensures (forall i :: 0 <= i <= |labels| ==> Acyclic(At(files, labels, i)))
       <==> (forall i :: 0 <= i < |labels| ==> !Closes(At(files, labels, i), labels[i]))
  {
    if forall i :: 0 <= i < |labels| ==> !Closes(At(files, labels, i), labels[i]) {
      forall i | 0 <= i <= |labels| ensures Acyclic(At(files, labels, i)) {
        AcyclicUpTo(files, labels, i);
      }
    }
    if forall i :: 0 <= i <= |labels| ==> Acyclic(At(files, labels, i)) {
      forall i | 0 <= i < |labels| ensures !Closes(At(files, labels, i), labels[i]) {
        ReachedFacts(files, labels, i);
        AtNext(files, labels, i);
        assert Acyclic(At(files, labels, i)) && Acyclic(At(files, labels, i + 1));
        StepKeepsAcyclicIff(At(files, labels, i), labels[i]);
      }
    }
  }
}
