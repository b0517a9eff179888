/**
 Who waits for whom under wait-die (src/txn/lock_manager.cpp:46-84): when waits point from older to
 younger transactions only, the one step that breaks this order, and a run that ends in a cycle.
 */
module WaitsFor {
  import opened Wrappers
  import opened Locks
  import opened Serial
  import opened Engine
  import opened EngineInv
  import opened EngineTheorems
  import opened EngineRuns

  /** `t` sleeps on a page that `h` holds. */
  ghost predicate Waits(s: State, t: TxnId, h: TxnId) {
    t in s.sleepers && s.sleepers[t].key in s.locks && h in OtherHolders(s.locks[s.sleepers[t].key], t)
  }

  /** Every sleeper is older than every other holder of its page. */
  ghost predicate AgeOrdered(s: State) {
    forall t, h :: Waits(s, t, h) ==> t < h
  }

  /** A transaction is granted a page it did not hold yet, past a sleeper younger than itself. */
  ghost predicate Overtakes(s: State, l: Label) {
    && l.LAcquire? && Request(s.locks, l.t, l.key, l.mode).Granted? && !HoldsS(s.locks, l.t, l.key)
    && exists u :: u in s.sleepers && s.sleepers[u].key == l.key && l.t < u
  }

  // ----- the step that breaks the order

  lemma GrantAddsHolder(locks: LockTable, t: TxnId, key: PageKey, mode: LockMode, k: PageKey)
    requires Sound(locks) && Request(locks, t, key, mode).Granted? && k in locks
    ensures var l := Request(locks, t, key, mode).locks;
            k in l && Holders(l[k]) == Holders(locks[k]) + if k == key then {t} else {}
  {
    if k == key && mode.Exclusive? && locks[k].exclusive != Some(t) {
      assert locks[k].shared - {t} == {};
    }
  }

  /** After a grant, a sleeper waits for whom it waited for, and for the new holder if that is on its page. */
  lemma GrantWaits(s: State, t: TxnId, key: PageKey, mode: LockMode, u: TxnId, h: TxnId)
    requires Sound(s.locks) && SleepersOk(s) && Request(s.locks, t, key, mode).Granted?
    ensures Waits(DoAcquire(s, t, key, mode), u, h)
       <==> Waits(s, u, h) || (u in s.sleepers && s.sleepers[u].key == key && h == t && u != t)
  {
    if u in s.sleepers {
      assert SleeperOk(s.locks, u, s.sleepers[u]);
      GrantAddsHolder(s.locks, t, key, mode, s.sleepers[u].key);
    }
  }

  lemma GrantKeepsOrderIff(s: State, t: TxnId, key: PageKey, mode: LockMode)
    requires Sound(s.locks) && SleepersOk(s) && AgeOrdered(s) && Request(s.locks, t, key, mode).Granted?
    requires t !in s.sleepers
    ensures AgeOrdered(DoAcquire(s, t, key, mode)) <==> !Overtakes(s, LAcquire(t, key, mode))
  {
    var s1 := DoAcquire(s, t, key, mode);
    if Overtakes(s, LAcquire(t, key, mode)) {
      var u :| u in s.sleepers && s.sleepers[u].key == key && t < u;
      GrantWaits(s, t, key, mode, u, t);
    } else {
      forall u, h | Waits(s1, u, h)
        ensures u < h
      {
        GrantWaits(s, t, key, mode, u, h);
        if !Waits(s, u, h) {
          assert SleeperOk(s.locks, u, s.sleepers[u]) && !HoldsS(s.locks, t, key);
        }
      }
    }
  }

  lemma AcquireKeepsOrderIff(s: State, t: TxnId, key: PageKey, mode: LockMode)
    requires Inv(s) && SleepersOk(s) && AgeOrdered(s) && Enabled(s, LAcquire(t, key, mode))
    ensures AgeOrdered(DoAcquire(s, t, key, mode)) <==> !Overtakes(s, LAcquire(t, key, mode))
  {
    if Request(s.locks, t, key, mode).Granted? {
      GrantKeepsOrderIff(s, t, key, mode);
    } else {
      forall u, h | Waits(DoAcquire(s, t, key, mode), u, h)
        ensures u < h
      {
        if u != t { assert Waits(s, u, h); }
      }
    }
  }

  lemma QuietKeepsOrder(s: State, l: Label)
    requires Inv(s) && AgeOrdered(s) && Enabled(s, l) && !l.LAcquire? && !l.LNewPage?
    ensures AgeOrdered(Do(s, l))
  {
    SleepersQuiet(s, l);
    var s1 := Do(s, l);
    forall t, h | Waits(s1, t, h)
      ensures t < h
    {
      assert Waits(s, t, h);
    }
  }

  lemma NewPageKeepsOrder(s: State, l: Label)
    requires Inv(s) && SleepersOk(s) && AgeOrdered(s) && Enabled(s, l) && l.LNewPage?
    ensures AgeOrdered(Do(s, l))
  {
    var s1 := Do(s, l);
    forall t, h | Waits(s1, t, h)
      ensures t < h
    {
      assert SleeperOk(s.locks, t, s.sleepers[t]);
      assert Waits(s, t, h);
    }
  }

  /** A step keeps the order if and only if it does not overtake a younger sleeper. */
  lemma StepKeepsOrderIff(s: State, l: Label)
    requires Inv(s) && SleepersOk(s) && AgeOrdered(s) && Enabled(s, l)
    ensures AgeOrdered(Do(s, l)) <==> !Overtakes(s, l)
  {
    if l.LAcquire? {
      AcquireKeepsOrderIff(s, l.t, l.key, l.mode);
    } else if l.LNewPage? {
      NewPageKeepsOrder(s, l);
    } else {
      QuietKeepsOrder(s, l);
    }
  }

  // ----- over runs

  /** A run is in age order throughout if and only if none of its steps overtakes a younger sleeper. */
  lemma RunInOrderIff(files: Disk, labels: seq<Label>)
    requires IsRun(Initial(files), labels)
    ensures (forall i :: 0 <= i <= |labels| ==> AgeOrdered(At(files, labels, i)))
       <==> (forall i :: 0 <= i < |labels| ==> !Overtakes(At(files, labels, i), labels[i]))
  {
    if forall i :: 0 <= i < |labels| ==> !Overtakes(At(files, labels, i), labels[i]) {
      forall i | 0 <= i <= |labels| ensures AgeOrdered(At(files, labels, i)) {
        OrderUpTo(files, labels, i);
      }
    }
    if forall i :: 0 <= i <= |labels| ==> AgeOrdered(At(files, labels, i)) {
      forall i | 0 <= i < |labels| ensures !Overtakes(At(files, labels, i), labels[i]) {
        ReachedFacts(files, labels, i);
        AtNext(files, labels, i);
        assert AgeOrdered(At(files, labels, i)) && AgeOrdered(At(files, labels, i + 1));
        StepKeepsOrderIff(At(files, labels, i), labels[i]);
      }
    }
  }

  lemma ReachedFacts(files: Disk, labels: seq<Label>, i: nat)
    requires IsRun(Initial(files), labels) && i <= |labels|
    ensures Inv(At(files, labels, i)) && SleepersOk(At(files, labels, i))
  {
    PrefixIsRun(files, labels, i);
    RunInv(files, labels[..i]);
    RunSleepers(files, labels[..i]);
  }

  lemma {:induction false} OrderUpTo(files: Disk, labels: seq<Label>, i: nat)
    requires IsRun(Initial(files), labels) && i <= |labels|
    requires forall k :: 0 <= k < i ==> !Overtakes(At(files, labels, k), labels[k])
    ensures AgeOrdered(At(files, labels, i))
  {
    if i > 0 {
      OrderUpTo(files, labels, i - 1);
      ReachedFacts(files, labels, i - 1);
      AtNext(files, labels, i - 1);
      StepKeepsOrderIff(At(files, labels, i - 1), labels[i - 1]);
    }
  }

  // ----- cycles

  /** Each transaction on the path waits for the next. */
  ghost predicate WaitPath(s: State, path: seq<TxnId>) {
    |path| >= 2 && forall i :: 0 <= i < |path| - 1 ==> Waits(s, path[i], path[i + 1])
  }

  lemma {:induction false} PathRises(s: State, path: seq<TxnId>)
    requires AgeOrdered(s) && WaitPath(s, path)
    ensures path[0] < path[|path| - 1]
  {
    var n := |path| - 1;
    assert Waits(s, path[n - 1], path[n]);
    if n > 1 {
      PathRises(s, path[..n]);
    }
  }

  /** In age order nobody waits for itself, however many waits lie between. */
  lemma OrderRulesOutCycles(s: State, path: seq<TxnId>)
    requires AgeOrdered(s) && WaitPath(s, path)
    ensures path[0] != path[|path| - 1]
  {
    PathRises(s, path);
  }

  // ----- a run that ends in a cycle

  /**
   Three transactions: 2 locks q, 3 reads p, 2 sleeps on p, 1 joins 3 as a reader of p past the sleeper,
   and sleeps on q.
   */
  function CycleRun(p: PageKey, q: PageKey): seq<Label> {
    [LBegin] + [LBegin] + [LBegin] + [LAcquire(2, q, Exclusive)] + [LAcquire(3, p, Shared)]
    + [LAcquire(2, p, Exclusive)] + [LAcquire(1, p, Shared)] + [LAcquire(1, q, Exclusive)]
  }

  /** After `ls`, transactions 1 to 3 run, with these locks and sleepers. */
  ghost predicate Stage(files: Disk, ls: seq<Label>, locks: LockTable, sleepers: map<TxnId, Wanted>) {
    && IsRun(Initial(files), ls)
    && var s := After(Initial(files), ls);
       && s.disk == files && s.locks == locks && s.sleepers == sleepers
       && forall t :: 1 <= t <= 3 ==> t in s.txns && s.txns[t].phase.Running?
  }

  lemma ThreeBegun(files: Disk)
    ensures Stage(files, [LBegin] + [LBegin] + [LBegin], map[], map[])
  {
    NoneBegun(files);
    assert [] + [LBegin] == [LBegin];
    OneMoreBegun(files, [], 0);
    OneMoreBegun(files, [LBegin], 1);
    OneMoreBegun(files, [LBegin] + [LBegin], 2);
  }

  lemma Acquires(files: Disk, ls: seq<Label>, locks: LockTable, sleepers: map<TxnId, Wanted>, t: TxnId, key: PageKey,
                 mode: LockMode)
    requires Stage(files, ls, locks, sleepers) && 1 <= t <= 3 && t !in sleepers && key in files
    requires !Request(locks, t, key, mode).MustDie?
    ensures var v := Request(locks, t, key, mode);
            if v.Granted? then Stage(files, ls + [LAcquire(t, key, mode)], v.locks, sleepers)
            else Stage(files, ls + [LAcquire(t, key, mode)], locks, sleepers[t := Wanted(key, mode)])
  {
    RunSnoc(Initial(files), ls, LAcquire(t, key, mode));
  }

  function OnlyReader(t: TxnId): LockEntry {
    Granting(LockEntry({}, None), t, Shared)
  }

  function OnlyWriter(t: TxnId): LockEntry {
    Granting(LockEntry({}, None), t, Exclusive)
  }

  lemma SecondReader(t: TxnId, u: TxnId)
    requires t != u
    ensures OtherHolders(Granting(OnlyReader(t), u, Shared), t) == {u}
    ensures OtherHolders(OnlyReader(t), u) == {t} && OtherHolders(OnlyWriter(t), u) == {t}
    ensures !ConflictsWithOthers(OnlyReader(t), u, Shared) && ConflictsWithOthers(OnlyReader(t), u, Exclusive)
  {
    assert t in OnlyReader(t).shared - {u};
  }

  /** The locks of the run's last states. */
  function TwoHeld(p: PageKey, q: PageKey): LockTable {
    map[q := OnlyWriter(2)][p := OnlyReader(3)]
  }

  function Joined(p: PageKey, q: PageKey): LockTable {
    TwoHeld(p, q)[p := Granting(OnlyReader(3), 1, Shared)]
  }

  lemma CycleVerdicts(p: PageKey, q: PageKey)
    requires p != q
    ensures Request(map[], 2, q, Exclusive) == Granted(map[q := OnlyWriter(2)])
    ensures Request(map[q := OnlyWriter(2)], 3, p, Shared) == Granted(TwoHeld(p, q))
    ensures Request(TwoHeld(p, q), 2, p, Exclusive) == MustWait
    ensures Request(TwoHeld(p, q), 1, p, Shared) == Granted(Joined(p, q))
    ensures Request(Joined(p, q), 1, q, Exclusive) == MustWait
  {
    SecondReader(3, 2);
    SecondReader(3, 1);
    SecondReader(2, 1);
  }

  lemma CycleEnds(files: Disk, p: PageKey, q: PageKey)
    requires p != q && p in files && q in files
    ensures Stage(files, CycleRun(p, q), Joined(p, q), map[2 := Wanted(p, Exclusive)][1 := Wanted(q, Exclusive)])
  {
    var ls := [LBegin] + [LBegin] + [LBegin];
    CycleVerdicts(p, q);
    ThreeBegun(files);
    Acquires(files, ls, map[], map[], 2, q, Exclusive);
    ls := ls + [LAcquire(2, q, Exclusive)];
    Acquires(files, ls, map[q := OnlyWriter(2)], map[], 3, p, Shared);
    ls := ls + [LAcquire(3, p, Shared)];
    Acquires(files, ls, TwoHeld(p, q), map[], 2, p, Exclusive);
    ls := ls + [LAcquire(2, p, Exclusive)];
    Acquires(files, ls, TwoHeld(p, q), map[2 := Wanted(p, Exclusive)], 1, p, Shared);
    ls := ls + [LAcquire(1, p, Shared)];
    Acquires(files, ls, Joined(p, q), map[2 := Wanted(p, Exclusive)], 1, q, Exclusive);
  }

  /** The waits-for graph of a reachable state can have a cycle: 1 waits for 2 and 2 for 1. */
  lemma CycleIsReachable(files: Disk, p: PageKey, q: PageKey)
    requires p != q && p in files && q in files
    ensures IsRun(Initial(files), CycleRun(p, q))
    ensures WaitPath(After(Initial(files), CycleRun(p, q)), [1, 2, 1])
  {
    CycleEnds(files, p, q);
    SecondReader(2, 1);
    var s := After(Initial(files), CycleRun(p, q));
    assert Waits(s, 1, 2);
    assert 1 in Granting(OnlyReader(3), 1, Shared).shared;
    assert Waits(s, 2, 1);
  }
}
