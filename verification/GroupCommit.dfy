/**
 Group commit (src/wal/log_manager.cpp:241-305): threads that want their records
 durable share fsyncs. A step is what happens between two points at which a thread
 gives up the flush mutex; the fsync itself runs without it.
 */
module GroupCommit {

  /**
   Where a thread is in FlushThrough: at the head of the loop, asleep on the condition
   variable, about to fsync, back from fsync but not yet holding the mutex, or out again.
   */
  datatype Phase =
    | Idle
    | Checking(target: nat)
    | Sleeping(target: nat)
    | Syncing(target: nat, cover: nat)
    | Synced(target: nat, cover: nat, ok: bool)
    | Returned(target: nat)
    | Failed(target: nat)

  /** `synced` is not a variable of the program: it is how far the file has really reached the disk. */
  datatype State = State(appended: nat, synced: nat, durable: nat, flushing: bool, threads: map<nat, Phase>)

  datatype Label =
    | Append
    | Call(t: nat, target: nat)
    | Check(t: nat)
    | SpuriousWake(t: nat)
    | FsyncOk(t: nat, reach: nat)
    | FsyncFails(t: nat)
    | Finish(t: nat)
    | Leave(t: nat)

  function PhaseOf(s: State, t: nat): Phase {
    if t in s.threads then s.threads[t] else Idle
  }

  function Max(a: nat, b: nat): nat {
    if a >= b then a else b
  }

  /** A fresh opening: some of what the log held may not have reached the disk, and nothing has been flushed since. */
  ghost predicate Init(s: State) {
    s.synced <= s.appended && s.durable == 0 && !s.flushing && s.threads == map[]
  }

  /** FlushThrough is called with LSNs that Append has handed out; fsync reaches at least what it was called for. */
  predicate Enabled(s: State, l: Label) {
    match l
    case Append => true
    case Call(t, target) => PhaseOf(s, t).Idle? && target <= s.appended
    case Check(t) => PhaseOf(s, t).Checking?
    case SpuriousWake(t) => PhaseOf(s, t).Sleeping?
    case FsyncOk(t, reach) => PhaseOf(s, t).Syncing? && reach <= s.appended &&
        (PhaseOf(s, t).cover <= s.appended ==> PhaseOf(s, t).cover <= reach)
    case FsyncFails(t) => PhaseOf(s, t).Syncing?
    case Finish(t) => PhaseOf(s, t).Synced?
    case Leave(t) => PhaseOf(s, t).Returned? || PhaseOf(s, t).Failed?
  }

  function Move(s: State, t: nat, p: Phase): State {
    s.(threads := s.threads[t := p])
  }

  /** One round of the loop, up to the wait, the unlock before fsync, or the return. */
  function DoCheck(s: State, t: nat): State
    requires PhaseOf(s, t).Checking?
  {
    var target := PhaseOf(s, t).target;
    if s.durable >= target then Move(s, t, Returned(target))
    else if s.flushing then Move(s, t, Sleeping(target))
    else Move(s.(flushing := true), t, Syncing(target, Max(target, s.appended)))
  }

  function Woken(p: Phase): Phase {
    if p.Sleeping? then Checking(p.target) else p
  }

  function WakeAll(threads: map<nat, Phase>): map<nat, Phase> {
    map t | t in threads :: Woken(threads[t])
  }

  /** The mutex is held again: clear the flag, publish the outcome, wake everyone. */
  function DoFinish(s: State, t: nat): State
    requires PhaseOf(s, t).Synced?
  {
    var p := PhaseOf(s, t);
    var next := if p.ok then Checking(p.target) else Failed(p.target);
    State(s.appended, s.synced, if p.ok then Max(s.durable, p.cover)
        else s.durable, false, WakeAll(s.threads)[t := next])
  }

  function Step(s: State, l: Label): State
    requires Enabled(s, l)
  {
    match l
    case Append => s.(appended := s.appended + 1)
    case Call(t, target) => Move(s, t, Checking(target))
    case Check(t) => DoCheck(s, t)
    case SpuriousWake(t) => Move(s, t, Checking(PhaseOf(s, t).target))
    case FsyncOk(t, reach) =>
      Move(s.(synced := Max(s.synced, reach)), t, Synced(PhaseOf(s, t).target, PhaseOf(s, t).cover, true))
    case FsyncFails(t) => Move(s, t, Synced(PhaseOf(s, t).target, PhaseOf(s, t).cover, false))
    case Finish(t) => DoFinish(s, t)
    case Leave(t) => Move(s, t, Idle)
  }

  ghost predicate IsRun(s: State, ls: seq<Label>)
    decreases |ls|
  {
    ls == [] || (Enabled(s, ls[0]) && IsRun(Step(s, ls[0]), ls[1..]))
  }

  ghost function After(s: State, ls: seq<Label>): State
    requires IsRun(s, ls)
    decreases |ls|
  {
    if ls == [] then s else After(Step(s, ls[0]), ls[1..])
  }

  // ----- the invariant

  predicate InFlight(p: Phase) {
    p.Syncing? || p.Synced?
  }

  /** What the state promises a thread in each phase. */
  ghost predicate PhaseOk(s: State, p: Phase) {
    match p
    case Idle => true
    case Checking(target) => target <= s.appended
    case Sleeping(target) => target <= s.appended && s.flushing
    case Syncing(target, cover) => target <= cover <= s.appended && s.flushing
    case Synced(target, cover, ok) => target <= cover <= s.appended && s.flushing && (ok ==> cover <= s.synced)
    case Returned(target) => target <= s.durable
    case Failed(target) => true
  }

  ghost predicate OneFlusher(s: State) {
    forall t, u :: t in s.threads && u in s.threads && InFlight(s.threads[t]) && InFlight(s.threads[u]) ==> t == u
  }

  ghost predicate FlagIsTrue(s: State) {
    s.flushing ==> exists t :: t in s.threads && InFlight(s.threads[t])
  }

  ghost predicate Inv(s: State) {
    && s.durable <= s.synced <= s.appended
    && (forall t :: t in s.threads ==> PhaseOk(s, s.threads[t]))
    && OneFlusher(s) && FlagIsTrue(s)
  }

  lemma MoveInv(s: State, t: nat, p: Phase)
    requires Inv(s) && PhaseOk(s, p) && !InFlight(p) && !InFlight(PhaseOf(s, t))
    ensures Inv(Move(s, t, p))
  {
    if s.flushing {
      var u :| u in s.threads && InFlight(s.threads[u]);
      assert u in Move(s, t, p).threads && InFlight(Move(s, t, p).threads[u]);
    }
  }

  lemma CheckInv(s: State, t: nat)
    requires Inv(s) && PhaseOf(s, t).Checking?
    ensures Inv(DoCheck(s, t))
  {
    var target := PhaseOf(s, t).target;
    if s.durable >= target {
      MoveInv(s, t, Returned(target));
    } else if s.flushing {
      MoveInv(s, t, Sleeping(target));
    } else {
      var next := DoCheck(s, t);
      assert forall u :: u in s.threads ==> !InFlight(s.threads[u]);
      assert InFlight(next.threads[t]);
    }
  }

  lemma SyncedInv(s: State, t: nat, reach: nat, ok: bool)
    requires Inv(s) && PhaseOf(s, t).Syncing? && reach <= s.appended && (ok ==> PhaseOf(s, t).cover <= reach)
    ensures var p := PhaseOf(s, t);
            Inv(Move(s.(synced := Max(s.synced, reach)), t, Synced(p.target, p.cover, ok)))
  {
    var p := PhaseOf(s, t);
    var next := Move(s.(synced := Max(s.synced, reach)), t, Synced(p.target, p.cover, ok));
    assert InFlight(s.threads[t]) && InFlight(next.threads[t]);
  }

  lemma FinishInv(s: State, t: nat)
    requires Inv(s) && PhaseOf(s, t).Synced?
    ensures Inv(DoFinish(s, t))
    ensures forall u :: u in DoFinish(s, t).threads ==> !DoFinish(s, t).threads[u].Sleeping?
  {
    var next := DoFinish(s, t);
    forall u | u in next.threads
      ensures PhaseOk(next, next.threads[u]) && !InFlight(next.threads[u]) && !next.threads[u].Sleeping?
    {
      assert u in s.threads && InFlight(s.threads[t]);
      assert u != t ==> !InFlight(s.threads[u]) && PhaseOk(s, s.threads[u]);
    }
  }

  lemma StepInv(s: State, l: Label)
    requires Inv(s) && Enabled(s, l)
    ensures Inv(Step(s, l))
  {
    match l
    case Append =>
    case Call(t, target) => MoveInv(s, t, Checking(target));
    case Check(t) => CheckInv(s, t);
    case SpuriousWake(t) => MoveInv(s, t, Checking(PhaseOf(s, t).target));
    case FsyncOk(t, reach) => SyncedInv(s, t, reach, true);
    case FsyncFails(t) =>
      SyncedInv(s, t, 0, false);
      assert s.(synced := Max(s.synced, 0)) == s;
    case Finish(t) => FinishInv(s, t);
    case Leave(t) => MoveInv(s, t, Idle);
  }

  lemma {:induction false} RunInv(s: State, ls: seq<Label>)
    requires Inv(s) && IsRun(s, ls)
    ensures Inv(After(s, ls))
    decreases |ls|
  {
    if ls != [] {
      StepInv(s, ls[0]);
      RunInv(Step(s, ls[0]), ls[1..]);
    }
  }

  // ----- what group commit promises

  /**
   Over every interleaving and every pattern of fsync failures since the log was opened:
   the durable LSN never runs ahead of the disk, one thread flushes at a time, a sleeper
   has a flush in progress to wake it, and a thread that returned normally has its target on disk.
   */
  lemma GroupCommitIsSafe(s: State, ls: seq<Label>, t: nat, u: nat)
    requires Init(s) && IsRun(s, ls)
    ensures var e := After(s, ls);
            && e.durable <= e.synced <= e.appended
            && (InFlight(PhaseOf(e, t)) && InFlight(PhaseOf(e, u)) ==> t == u)
            && (PhaseOf(e, t).Sleeping? ==> exists f :: InFlight(PhaseOf(e, f)))
            && (PhaseOf(e, t).Returned? ==> PhaseOf(e, t).target <= e.synced)
  {
    RunInv(s, ls);
    var e := After(s, ls);
    if PhaseOf(e, t).Sleeping? {
      var f :| f in e.threads && InFlight(e.threads[f]);
      assert InFlight(PhaseOf(e, f));
    }
  }

  /** When the flush ends, well or badly, nobody is left asleep. */
  lemma EveryFlushWakesAll(s: State, ls: seq<Label>, t: nat, u: nat)
    requires Init(s) && IsRun(s, ls) && Enabled(After(s, ls), Finish(t))
    ensures !PhaseOf(Step(After(s, ls), Finish(t)), u).Sleeping?
  {
    RunInv(s, ls);
    FinishInv(After(s, ls), t);
  }

  /**
   One fsync serves everyone it covered: after it ends well, every thread waiting or about
   to check with a target it covered, the flusher included, returns at its next check.
   */
  lemma OneFsyncServesAll(s: State, t: nat, u: nat)
    requires Inv(s) && PhaseOf(s, t).Synced? && PhaseOf(s, t).ok
    requires u == t ||
            ((PhaseOf(s, u).Sleeping? || PhaseOf(s, u).Checking?) && PhaseOf(s, u).target <= PhaseOf(s, t).cover)
    ensures var e := DoFinish(s, t);
            && PhaseOf(e, u).Checking? && PhaseOf(e, u).target == PhaseOf(s, u).target
            && PhaseOf(DoCheck(e, u), u) == Returned(PhaseOf(s, u).target)
  {
    assert PhaseOk(s, s.threads[t]);
  }

  /** After a failed flush, the next thread to check that is still uncovered retries the fsync itself. */
  lemma FailureIsRetried(s: State, t: nat, u: nat)
    requires Inv(s) && PhaseOf(s, t).Synced? && !PhaseOf(s, t).ok
    requires PhaseOf(s, u).Sleeping? && PhaseOf(s, u).target > s.durable
    ensures var e := DoFinish(s, t);
            PhaseOf(e, u).Checking? && PhaseOf(DoCheck(e, u), u).Syncing? && PhaseOf(e, t).Failed?
  {
  }

  // ----- checkpoints

  /** Checkpoint empties the log and restarts the LSNs at 1; the durable LSN is left as it was. */
  function DoCheckpoint(s: State): State {
    s.(appended := 0, synced := 0)
  }

  ghost predicate Quiescent(s: State) {
    forall t :: t in s.threads ==> s.threads[t].Idle?
  }

  /** Every thread that has returned normally has its records on disk. */
  ghost predicate ReturnsAreDurable(s: State) {
    forall t :: PhaseOf(s, t).Returned? ==> PhaseOf(s, t).target <= s.synced
  }

  ghost predicate SafeFromHere(s: State) {
    forall ls :: IsRun(s, ls) ==> ReturnsAreDurable(After(s, ls))
  }

  ghost function Unsynced(s: State): seq<Label> {
    [Append, Call(0, s.appended + 1), Check(0)]
  }

  lemma UnsyncedRun(s: State)
    requires Quiescent(s) && s.durable > s.appended
    ensures IsRun(s, Unsynced(s))
    ensures PhaseOf(After(s, Unsynced(s)), 0) == Returned(s.appended + 1) && After(s, Unsynced(s)).synced == s.synced
  {
    var l0, l1, l2 := Append, Call(0, s.appended + 1), Check(0);
    var s1 := Step(s, l0);
    var s2 := Step(s1, l1);
    RunOne(s2, l2, []);
    RunOne(s1, l1, [l2]);
    RunOne(s, l0, [l1, l2]);
    assert [l0] + [l1, l2] == Unsynced(s) && [l1] + [l2] == [l1, l2] && [l2] + [] == [l2];
  }

  lemma RunOne(s: State, l: Label, ls: seq<Label>)
    requires Enabled(s, l) && IsRun(Step(s, l), ls)
    ensures IsRun(s, [l] + ls) && After(s, [l] + ls) == After(Step(s, l), ls)
  {
    assert ([l] + ls)[1..] == ls;
  }

  /**
   With no flush under way, group commit stays safe after a checkpoint exactly when nothing
   had been flushed through before it: otherwise the stale durable LSN lets the first commits
   after the checkpoint return without an fsync.
   */
  lemma CheckpointIsSafeIff(s: State)
    requires Inv(s) && Quiescent(s)
    ensures SafeFromHere(DoCheckpoint(s)) <==> s.durable == 0
  {
    var c := DoCheckpoint(s);
    if s.durable == 0 {
      forall ls | IsRun(c, ls)
        ensures ReturnsAreDurable(After(c, ls))
      {
        CheckpointInv(s);
        RunInv(c, ls);
      }
    } else {
      UnsyncedRun(c);
      assert !ReturnsAreDurable(After(c, Unsynced(c)));
    }
  }

  lemma CheckpointInv(s: State)
    requires Inv(s) && Quiescent(s) && s.durable == 0
    ensures Inv(DoCheckpoint(s))
  {
  }

  // ----- the variables behind the mutex

  /** The log manager's side of the protocol; each method is one critical section. */
  class Flusher {
    var appended: nat
    var durable: nat
    var flushing: bool
    var threads: map<nat, Phase>
    ghost var synced: nat

    ghost function View(): State
      reads this
    {
      State(appended, synced, durable, flushing, threads)
    }

    constructor (lastLsn: nat)
      ensures Init(View()) && appended == lastLsn
    {
      appended, synced, durable, flushing, threads := lastLsn, lastLsn, 0, false, map[];
    }

    /** AppendRecord hands out the next LSN. */
    method Append() returns (lsn: nat)
      requires Inv(View())
      modifies this`appended
      ensures View() == Step(old(View()), Label.Append) && Inv(View()) && lsn == appended
    {
      StepInv(View(), Label.Append);
      appended := appended + 1;
      lsn := appended;
    }

    /** FlushThrough is entered with an LSN that has been handed out. */
    method Enter(t: nat, target: nat)
      requires Inv(View()) && Enabled(View(), Call(t, target))
      modifies this`threads
      ensures View() == Step(old(View()), Call(t, target)) && Inv(View())
    {
      StepInv(View(), Call(t, target));
      threads := threads[t := Checking(target)];
    }

    /** The fsync call itself, outside the mutex; `reach` is how far it got, if it succeeded. */
    method Fsync(t: nat, ok: bool, ghost reach: nat)
      requires Inv(View()) && PhaseOf(View(), t).Syncing? && (ok ==> Enabled(View(), FsyncOk(t, reach)))
      modifies this`threads, this`synced
      ensures View() == Step(old(View()), if ok then FsyncOk(t, reach) else FsyncFails(t)) && Inv(View())
    {
      StepInv(View(), if ok then FsyncOk(t, reach) else FsyncFails(t));
      if ok { synced := Max(synced, reach); }
      threads := threads[t := Synced(threads[t].target, threads[t].cover, ok)];
    }

    /** A sleeper that wakes for no reason is back at the head of the loop. */
    method Wake(t: nat)
      requires Inv(View()) && PhaseOf(View(), t).Sleeping?
      modifies this`threads
      ensures View() == Step(old(View()), SpuriousWake(t)) && Inv(View())
    {
      StepInv(View(), SpuriousWake(t));
      threads := threads[t := Checking(threads[t].target)];
    }

    /** The call is over, well or badly. */
    method Return(t: nat) returns (ok: bool)
      requires Inv(View()) && Enabled(View(), Leave(t))
      modifies this`threads
      ensures View() == Step(old(View()), Leave(t)) && Inv(View())
      ensures ok <==> old(PhaseOf(View(), t)).Returned?
    {
      StepInv(View(), Leave(t));
      ok := threads[t].Returned?;
      threads := threads[t := Idle];
    }

    method CheckOnce(t: nat)
      requires Inv(View()) && PhaseOf(View(), t).Checking?
      modifies this
      ensures View() == DoCheck(old(View()), t) && Inv(View())
    {
      CheckInv(View(), t);
      var target := threads[t].target;
      if durable >= target {
        threads := threads[t := Returned(target)];
      } else if flushing {
        threads := threads[t := Sleeping(target)];
      } else {
        flushing := true;
        var toCover := if target >= appended then target else appended;
        threads := threads[t := Syncing(target, toCover)];
      }
    }

    method Settle(t: nat)
      requires Inv(View()) && PhaseOf(View(), t).Synced?
      modifies this
      ensures View() == DoFinish(old(View()), t) && Inv(View())
    {
      FinishInv(View(), t);
      var p := threads[t];
      flushing := false;
      if p.ok && p.cover > durable {
        durable := p.cover;
      }
      threads := WakeAll(threads);
      threads := threads[t := if p.ok then Checking(p.target) else Failed(p.target)];
    }
  }

  /**
   FlushThrough from call to return, for a thread that finds nobody flushing and whose fsyncs all succeed:
   one fsync, and the target is on disk.
   */
  method FlushAlone(f: Flusher, t: nat, target: nat)
    requires Inv(f.View()) && Enabled(f.View(), Call(t, target)) && !f.flushing
    modifies f
    ensures Inv(f.View()) && target <= f.durable <= f.synced && f.appended == old(f.appended)
    ensures PhaseOf(f.View(), t) == Returned(target)
  {
    f.Enter(t, target);
    f.CheckOnce(t);
    if f.threads[t].Syncing? {
      f.Fsync(t, true, f.appended);
      f.Settle(t);
      f.CheckOnce(t);
    }
  }
}
