/**
 The engine and group commit together: a commit waits in FlushThrough for the LSN of its Commit record
 (src/txn/transaction_manager.cpp:77-103 over src/wal/log_manager.cpp:241-305). If the fsync fails, FlushThrough
 and Commit throw and the session aborts (src/sql/session.cpp:77-85), with the Commit record in the log. Every run
 in which no such abort takes back a change is, seen from the engine, a run of the engine alone, so that what is
 proved of its runs holds with group commit under it. FailedCommit is about the other runs.
 */
module GroupedEngine {
  import opened Serial
  import opened Recovery
  import E = Engine
  import R = EngineRuns
  import T = EngineTheorems
  import G = GroupCommit

  datatype State = State(engine: E.State, flush: G.State)

  /**
   A step of the engine that needs no fsync, a step inside FlushThrough, and the two ends of a commit's FlushThrough:
   it returns, or it throws and the transaction is aborted.
   */
  datatype Label =
    | Act(l: E.Label)
    | Flush(f: G.Label)
    | Confirm(t: nat)
    | AbortFailed(t: nat)

  function Initial(files: Disk): State {
    State(E.Initial(files), G.State(0, 0, 0, false, map[]))
  }

  predicate IsSyncing(s: State, t: nat) {
    t in s.engine.txns && s.engine.txns[t].phase.Syncing?
  }

  /** Record i of the log has LSN i + 1: a committing thread waits for the LSN of its Commit record. */
  predicate MayFlush(s: State, f: G.Label) {
    match f
    case Append => false
    case Call(t, target) => IsSyncing(s, t) && target == s.engine.txns[t].phase.at + 1
    case Leave(_) => false
    case _ => true
  }

  predicate Enabled(s: State, l: Label) {
    match l
    case Act(a) => !a.LSync? && !a.LSynced? && !a.LAbortFailed? && E.Enabled(s.engine, a)
    case Flush(f) => G.Enabled(s.flush, f) && MayFlush(s, f)
    case Confirm(t) => IsSyncing(s, t) && G.PhaseOf(s.flush, t) == G.Returned(s.engine.txns[t].phase.at + 1)
    case AbortFailed(t) => IsSyncing(s, t) && G.PhaseOf(s.flush, t).Failed?
  }

  /** Log records are appended under the log's own mutex; an fsync makes a prefix of them stable. */
  function Step(s: State, l: Label): State
    requires Enabled(s, l)
  {
    match l
    case Act(a) =>
      var e := E.Do(s.engine, a);
      State(e, s.flush.(appended := |e.log|))
    case Flush(f) =>
      var g := G.Step(s.flush, f);
      State(if f.FsyncOk? then s.engine.(synced := g.synced) else s.engine, g)
    case Confirm(t) =>
      var x := s.engine.txns[t];
      State(E.SetPhase(s.engine, t, E.Forcing(x.phase.at, x.dirtied)), G.Step(s.flush, G.Leave(t)))
    case AbortFailed(t) =>
      State(E.SetPhase(s.engine, t, E.Undoing(s.engine.txns[t].dirtied)), G.Step(s.flush, G.Leave(t)))
  }

  ghost predicate IsRun(s: State, ls: seq<Label>)
    decreases |ls|, 0
  {
    ls == [] || (IsRun(s, ls[..|ls| - 1]) && Enabled(After(s, ls[..|ls| - 1]), ls[|ls| - 1]))
  }

  ghost function After(s: State, ls: seq<Label>): State
    requires IsRun(s, ls)
    decreases |ls|, 1
  {
    if ls == [] then s else Step(After(s, ls[..|ls| - 1]), ls[|ls| - 1])
  }

  /** The abort of a transaction whose Commit record is in the log takes back a change. */
  predicate Spoils(s: State, l: Label) {
    l.AbortFailed? && !E.Unchanged(s.engine, l.t)
  }

  ghost predicate Unspoiled(s: State, ls: seq<Label>)
    requires IsRun(s, ls)
  {
    ls == [] || (Unspoiled(s, ls[..|ls| - 1]) && !Spoils(After(s, ls[..|ls| - 1]), ls[|ls| - 1]))
  }

  /** The two halves agree on how long the log is and how much of it is stable. */
  ghost predicate Coupled(s: State) {
    G.Inv(s.flush) && s.flush.appended == |s.engine.log| && s.flush.synced == s.engine.synced
  }

  /** An engine step appends at most one record and syncs nothing. */
  lemma ActAppends(e: E.State, a: E.Label)
    requires E.Enabled(e, a) && !a.LSync?
    ensures E.Do(e, a).synced == e.synced && |e.log| <= |E.Do(e, a).log| <= |e.log| + 1
  {
    if E.IsWork(a) { WorkAppends(e, a); } else { EndAppends(e, a); }
  }

  lemma WorkAppends(e: E.State, a: E.Label)
    requires E.Enabled(e, a) && E.IsWork(a)
    ensures E.Do(e, a).synced == e.synced && |e.log| <= |E.Do(e, a).log| <= |e.log| + 1
  {
  }

  lemma EndAppends(e: E.State, a: E.Label)
    requires E.Enabled(e, a) && !E.IsWork(a) && !a.LSync?
    ensures E.Do(e, a).synced == e.synced && |e.log| <= |E.Do(e, a).log| <= |e.log| + 1
  {
  }

  /** One joint step is a step of the engine, or none, and a step of the flush protocol, or none. */
  lemma StepSplits(s: State, l: Label) returns (els: seq<E.Label>, gls: seq<G.Label>)
    requires Coupled(s) && Enabled(s, l) && !Spoils(s, l)
    ensures Coupled(Step(s, l))
    ensures (els == [] && Step(s, l).engine == s.engine)
         || (|els| == 1 && E.Enabled(s.engine, els[0]) && Step(s, l).engine == E.Do(s.engine, els[0]))
    ensures (gls == [] && Step(s, l).flush == s.flush)
         || (|gls| == 1 && G.Enabled(s.flush, gls[0]) && Step(s, l).flush == G.Step(s.flush, gls[0]))
  {
    match l
    case Act(a) =>
      ActSplits(s, a);
      els := [a];
      gls := if |E.Do(s.engine, a).log| == |s.engine.log| then [] else [G.Append];
    case Flush(f) =>
      FlushSplits(s, f);
      els := if f.FsyncOk? then [E.LSync(G.Step(s.flush, f).synced)] else [];
      gls := [f];
    case Confirm(t) =>
      ConfirmSplits(s, t);
      els := [E.LSynced(t)];
      gls := [G.Leave(t)];
    case AbortFailed(t) =>
      G.StepInv(s.flush, G.Leave(t));
      els := [E.LAbortFailed(t)];
      gls := [G.Leave(t)];
  }

  lemma ActSplits(s: State, a: E.Label)
    requires Coupled(s) && Enabled(s, Act(a))
    ensures var s1 := Step(s, Act(a));
            && Coupled(s1) && s1.engine == E.Do(s.engine, a)
            && s1.flush == if |s1.engine.log| == |s.engine.log| then s.flush else G.Step(s.flush, G.Append)
  {
    ActAppends(s.engine, a);
    G.StepInv(s.flush, G.Append);
  }

  lemma FlushSplits(s: State, f: G.Label)
    requires Coupled(s) && Enabled(s, Flush(f))
    ensures var s1 := Step(s, Flush(f));
            && Coupled(s1) && s.engine.synced <= s1.flush.synced <= |s.engine.log|
            && s1.engine == if f.FsyncOk? then s.engine.(synced := s1.flush.synced) else s.engine
  {
    G.StepInv(s.flush, f);
  }

  /** A commit is confirmed only when its Commit record is stable. */
  lemma ConfirmSplits(s: State, t: nat)
    requires Coupled(s) && Enabled(s, Confirm(t))
    ensures Coupled(Step(s, Confirm(t)))
    ensures E.Enabled(s.engine, E.LSynced(t)) && Step(s, Confirm(t)).engine == E.Do(s.engine, E.LSynced(t))
  {
    G.StepInv(s.flush, G.Leave(t));
    assert G.PhaseOk(s.flush, G.PhaseOf(s.flush, t));
  }

  lemma {:induction false} FlushSnoc(s: G.State, ls: seq<G.Label>, l: G.Label)
    requires G.IsRun(s, ls) && G.Enabled(G.After(s, ls), l)
    ensures G.IsRun(s, ls + [l]) && G.After(s, ls + [l]) == G.Step(G.After(s, ls), l)
    decreases |ls|
  {
    if ls == [] {
      G.RunOne(s, l, []);
    } else {
      FlushSnoc(G.Step(s, ls[0]), ls[1..], l);
      G.RunOne(s, ls[0], ls[1..] + [l]);
      assert [ls[0]] + (ls[1..] + [l]) == ls + [l];
    }
  }

  lemma EngineGoesOn(s: E.State, ls: seq<E.Label>, more: seq<E.Label>, end: E.State)
    requires E.IsRun(s, ls)
    requires (more == [] && end == E.After(s, ls))
          || (|more| == 1 && E.Enabled(E.After(s, ls), more[0]) && end == E.Do(E.After(s, ls), more[0]))
    ensures E.IsRun(s, ls + more) && E.After(s, ls + more) == end
  {
    if more == [] {
      assert ls + more == ls;
    } else {
      R.RunSnoc(s, ls, more[0]);
      assert more == [more[0]];
    }
  }

  lemma FlushGoesOn(s: G.State, ls: seq<G.Label>, more: seq<G.Label>, end: G.State)
    requires G.IsRun(s, ls)
    requires (more == [] && end == G.After(s, ls))
          || (|more| == 1 && G.Enabled(G.After(s, ls), more[0]) && end == G.Step(G.After(s, ls), more[0]))
    ensures G.IsRun(s, ls + more) && G.After(s, ls + more) == end
  {
    if more == [] {
      assert ls + more == ls;
    } else {
      FlushSnoc(s, ls, more[0]);
      assert more == [more[0]];
    }
  }

  /** Every unspoiled joint run is a run of the engine and a run of the flush protocol. */
  lemma {:induction false} RunSplits(files: Disk, ls: seq<Label>) returns (els: seq<E.Label>, gls: seq<G.Label>)
    requires IsRun(Initial(files), ls) && Unspoiled(Initial(files), ls)
    ensures E.IsRun(E.Initial(files), els) && E.After(E.Initial(files), els) == After(Initial(files), ls).engine
    ensures G.IsRun(Initial(files).flush, gls) && G.After(Initial(files).flush, gls) == After(Initial(files), ls).flush
    ensures Coupled(After(Initial(files), ls))
    decreases |ls|
  {
    els, gls := [], [];
    if ls != [] {
      var n := |ls| - 1;
      var e0, g0 := RunSplits(files, ls[..n]);
      var e1, g1 := StepSplits(After(Initial(files), ls[..n]), ls[n]);
      els, gls := e0 + e1, g0 + g1;
      EngineGoesOn(E.Initial(files), e0, e1, After(Initial(files), ls).engine);
      FlushGoesOn(Initial(files).flush, g0, g1, After(Initial(files), ls).flush);
    }
  }

  /**
   With commits confirmed by group commit, for every interleaving and every pattern of fsync failures in which no abort
   of a failed commit takes back a change: after a crash that keeps at least what the fsyncs made stable, recovery
   rebuilds exactly the serial state of the transactions whose Commit record survived, and every transaction whose
   commit returned is one of them.
   */
  lemma GroupedCommitsSurvive(files: Disk, ls: seq<Label>, kept: nat, disk: Disk)
    requires IsRun(Initial(files), ls) && Unspoiled(Initial(files), ls)
    requires T.CrashLeaves(After(Initial(files), ls).engine, kept, disk)
    ensures var s := After(Initial(files), ls).engine;
            && After(Initial(files), ls).flush.synced <= kept && T.Survivors(s, kept) <= |s.history|
            && var base := s.history[..T.Survivors(s, kept)];
            && (forall p :: Lookup(Recovered(disk, s.log[..kept]), p) == Lookup(ExecAll(files, base), p))
            && (forall t :: t in s.returned ==> exists i :: 0 <= i < T.Survivors(s, kept) && s.history[i].txn == t)
  {
    var els, _ := RunSplits(files, ls);
    T.RecoveryIsExact(files, els, kept, disk);
  }
}
