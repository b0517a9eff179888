/** The inductive invariant of the engine: what every step keeps. */
module EngineInv {
  import opened Wrappers
  import opened Locks
  import opened Serial
  import opened Recovery
  import opened Engine

  // ----- one transaction

  ghost predicate OpsLocked(locks: LockTable, t: TxnId, ops: seq<Op>) {
    forall i :: 0 <= i < |ops| ==> if ops[i].Write? then HoldsX(locks, t, ops[i].key) else HoldsS(locks, t, ops[i].key)
  }

  /** Every page of `ps` is cached, still dirty, and holds what `d` says. */
  ghost predicate Unflushed(s: State, ps: set<PageKey>, d: Disk) {
    forall p :: p in ps ==> p in s.cache && p in s.dirty && s.cache[p] == Lookup(d, p)
  }

  ghost predicate Settled(s: State, ps: set<PageKey>, d: Disk) {
    forall p :: p in ps ==> p in s.cache && s.cache[p] == Lookup(d, p)
  }

  /** `t` has no Update and no Commit record, except Updates of pages in `logged`. */
  ghost predicate LogsOnly(log: seq<Record>, t: TxnId, logged: set<PageKey>) {
    forall i :: 0 <= i < |log| && log[i].txn == t ==> !log[i].Commit? && (log[i].Update? ==> log[i].key in logged)
  }

  /** The last record about each page of `logged` is t's, with the page's current contents. */
  ghost predicate LoggedLast(s: State, t: TxnId, logged: set<PageKey>) {
    forall p :: p in logged ==> p in s.cache && LastUpdate(s.log, p) == Some(Update(t, p, s.cache[p]))
  }

  ghost predicate TxnOk(s: State, t: TxnId, x: Txn) {
    && t < s.nextTxn
    && x.dirtied == Written(x.ops)
    && OpsLocked(s.locks, t, x.ops)
    && match x.phase
       case Running =>
         && Replays(SerialState(s), x.ops)
         && Unflushed(s, x.dirtied, Exec(SerialState(s), x.ops))
         && LogsOnly(s.log, t, {})
       case Logging(logged) =>
         && Replays(SerialState(s), x.ops)
         && Unflushed(s, x.dirtied, Exec(SerialState(s), x.ops))
         && logged <= x.dirtied
         && LogsOnly(s.log, t, logged)
         && LoggedLast(s, t, logged)
       case Syncing(at) =>
         && at < |s.log| && s.log[at] == Commit(t)
         && Unflushed(s, x.dirtied, SerialState(s))
         && Logged(s.log, t, x.dirtied)
       case Forcing(at, todo) =>
         && at < s.synced && at < |s.log| && s.log[at] == Commit(t)
         && todo <= x.dirtied
         && Unflushed(s, todo, SerialState(s))
         && Settled(s, x.dirtied, SerialState(s))
         && LoggedBefore(s.log, t, at, x.dirtied)
       case Undoing(todo) =>
         && todo <= x.dirtied
         && (forall p :: p in x.dirtied ==> p in s.cache)
         && Settled(s, x.dirtied - todo, SerialState(s))
  }

  ghost predicate Logged(log: seq<Record>, t: TxnId, ps: set<PageKey>) {
    forall at :: 0 <= at < |log| && log[at] == Commit(t) ==> LoggedBefore(log, t, at, ps)
  }

  /** Before its Commit record, `t` logged an Update of every page in `ps`. */
  ghost predicate LoggedBefore(log: seq<Record>, t: TxnId, at: nat, ps: set<PageKey>)
    requires at < |log|
  {
    forall p :: p in ps ==> UpdateBefore(log, t, at, p)
  }

  ghost predicate UpdateBefore(log: seq<Record>, t: TxnId, at: nat, p: PageKey)
    requires at <= |log|
  {
    exists i :: 0 <= i < at && log[i].Update? && log[i].txn == t && log[i].key == p
  }

  // ----- pages

  /** Pages whose cached contents belong to a transaction that has not committed. */
  function Unsettled(x: Txn): set<PageKey> {
    match x.phase
    case Running => x.dirtied
    case Logging(_) => x.dirtied
    case Undoing(todo) => todo
    case _ => {}
  }

  /** Pages of a committed transaction that have not reached the file. */
  function Unforced(x: Txn): set<PageKey> {
    match x.phase
    case Syncing(_) => x.dirtied
    case Forcing(_, todo) => todo
    case _ => {}
  }

  ghost predicate IsUnsettled(s: State, p: PageKey) {
    exists t :: t in s.txns && p in Unsettled(s.txns[t])
  }

  ghost predicate IsUnforced(s: State, p: PageKey) {
    exists t :: t in s.txns && p in Unforced(s.txns[t])
  }

  /** No-steal: a page no live transaction is changing shows its last committed contents. */
  ghost predicate CacheOk(s: State) {
    forall p :: !IsUnsettled(s, p) ==> View(s, p) == Lookup(SerialState(s), p)
  }

  /** Force: the file lags behind only where a committed transaction is still flushing. */
  ghost predicate DiskOk(s: State) {
    forall p :: !IsUnforced(s, p) ==> Lookup(s.disk, p) == Lookup(SerialState(s), p)
  }

  // ----- locks

  ghost predicate LocksOk(s: State) {
    && Sound(s.locks)
    && (forall key, t :: HoldsS(s.locks, t, key) ==> t in s.txns)
    && s.locks.Keys <= s.disk.Keys
    && s.cache.Keys <= s.disk.Keys
    && (forall t :: t in s.sleepers ==> t in s.txns && s.txns[t].phase.Running?)
  }

  // ----- log

  /** Recovering the first n records gives the serial state of the transactions committed in them. */
  ghost predicate PrefixOk(init: Disk, log: seq<Record>, history: seq<Done>, n: nat)
    requires n <= |log|
  {
    var k := |CommitIds(log[..n])|;
    && k <= |history|
    && forall p :: Lookup(Recovered(init, log[..n]), p) == Lookup(ExecAll(init, history[..k]), p)
  }

  ghost predicate LogOk(s: State) {
    && s.synced <= |s.log|
    && |CommitIds(s.log)| == |s.history|
    && (forall i :: 0 <= i < |s.history| ==> s.history[i].txn == CommitIds(s.log)[i])
    && (forall i :: 0 <= i < |s.log| ==> s.log[i].txn < s.nextTxn)
    && (forall n :: 0 <= n <= |s.log| ==> PrefixOk(s.init, s.log, s.history, n))
  }

  /** A page ever written back is covered by a committed update within the fsynced prefix. */
  ghost predicate ForcedOk(s: State) {
    && (forall p :: p in s.forced ==>
        s.synced <= |s.log| && HasUpdate(s.log[..s.synced], CommitSet(s.log[..s.synced]), p))
    && (forall p :: p !in s.forced ==> Lookup(s.disk, p) == Lookup(s.init, p))
    && (forall t :: t in s.returned ==> s.synced <= |s.log| && t in CommitSet(s.log[..s.synced]))
  }

  ghost predicate TxnsOk(s: State) {
    forall t :: t in s.txns ==> TxnOk(s, t, s.txns[t])
  }

  ghost predicate Inv(s: State) {
    && LocksOk(s)
    && TxnsOk(s)
    && CacheOk(s)
    && DiskOk(s)
    && LogOk(s)
    && ForcedOk(s)
    && Serializable(s.init, s.history)
  }

  lemma InitialInv(files: Disk)
    ensures Inv(Initial(files))
  {
  }

  // ----- what a step leaves alone

  /** A transaction is unaffected by a step that leaves its locks, its pages and its records alone. */
  lemma TxnStays(s: State, s1: State, t: TxnId, x: Txn)
    requires TxnOk(s, t, x) && s.nextTxn <= s1.nextTxn && s.synced <= s1.synced
    requires forall key ::
               && (HoldsX(s.locks, t, key) ==> HoldsX(s1.locks, t, key))
               && (HoldsS(s.locks, t, key) ==> HoldsS(s1.locks, t, key))
    requires forall i :: 0 <= i < |x.ops| ==>
            Lookup(SerialState(s1), x.ops[i].key) == Lookup(SerialState(s), x.ops[i].key)
    requires forall p :: p in x.dirtied && p in s.cache ==> p in s1.cache && s1.cache[p] == s.cache[p]
    requires forall p :: p in x.dirtied && p in s.dirty ==> p in s1.dirty
    requires s1.log == s.log || (|s1.log| == |s.log| + 1 && s1.log[..|s.log|] == s.log && s1.log[|s.log|].txn != t &&
                                 (s1.log[|s.log|].Update? ==> s1.log[|s.log|].key !in x.dirtied))
    ensures TxnOk(s1, t, x)
  {
    assert forall i :: 0 <= i < |s.log| ==> s1.log[i] == s.log[i] by {
      if s1.log != s.log { assert forall i :: 0 <= i < |s.log| ==> s1.log[i] == s1.log[..|s.log|][i]; }
    }
    ExecLocal(SerialState(s), SerialState(s1), x.ops);
    WrittenLookups(SerialState(s), SerialState(s1), x.ops);
    if x.phase.Logging? {
      LoggedLastStays(s, s1, t, x);
    } else if x.phase.Syncing? {
      forall at | 0 <= at < |s1.log| && s1.log[at] == Commit(t)
        ensures LoggedBefore(s1.log, t, at, x.dirtied)
      {
        assert at < |s.log| && s.log[at] == Commit(t);
        LoggedBeforeStays(s.log, s1.log, t, at, x.dirtied);
      }
    } else if x.phase.Forcing? {
      LoggedBeforeStays(s.log, s1.log, t, x.phase.at, x.dirtied);
    }
  }

  lemma WrittenLookups(d: Disk, e: Disk, ops: seq<Op>)
    requires forall i :: 0 <= i < |ops| ==> Lookup(d, ops[i].key) == Lookup(e, ops[i].key)
    ensures forall p :: p in Written(ops) ==>
            Lookup(d, p) == Lookup(e, p) && Lookup(Exec(d, ops), p) == Lookup(Exec(e, ops), p)
  {
    ExecLocal(d, e, ops);
    forall p | p in Written(ops)
      ensures Lookup(d, p) == Lookup(e, p)
    {
      WrittenTouched(ops, p);
    }
  }

  lemma LoggedLastStays(s: State, s1: State, t: TxnId, x: Txn)
    requires x.phase.Logging? && x.phase.logged <= x.dirtied && LoggedLast(s, t, x.phase.logged)
    requires forall p :: p in x.dirtied && p in s.cache ==> p in s1.cache && s1.cache[p] == s.cache[p]
    requires s1.log == s.log || (|s1.log| == |s.log| + 1 && s1.log[..|s.log|] == s.log &&
                                 (s1.log[|s.log|].Update? ==> s1.log[|s.log|].key !in x.dirtied))
    ensures LoggedLast(s1, t, x.phase.logged)
  {
    if s1.log != s.log {
      forall p | p in x.phase.logged
        ensures LastUpdate(s1.log, p) == LastUpdate(s.log, p)
      {
        LastUpdateSnoc(s.log, s1.log[|s.log|], p);
        assert s1.log == s.log + [s1.log[|s.log|]];
      }
    }
  }

  lemma LoggedBeforeStays(log: seq<Record>, log1: seq<Record>, t: TxnId, at: nat, ps: set<PageKey>)
    requires at < |log| <= |log1| && LoggedBefore(log, t, at, ps)
    requires forall i :: 0 <= i < |log| ==> log1[i] == log[i]
    ensures LoggedBefore(log1, t, at, ps)
  {
    forall p | p in ps
      ensures UpdateBefore(log1, t, at, p)
    {
      assert UpdateBefore(log, t, at, p);
      var i :| 0 <= i < at && log[i].Update? && log[i].txn == t && log[i].key == p;
      assert log1[i].Update? && log1[i].txn == t && log1[i].key == p;
    }
  }

  /** A page written by `t` is exclusively locked by it, so no other transaction has touched it. */
  lemma TouchersApart(s: State, t: TxnId, u: TxnId, p: PageKey)
    requires LocksOk(s) && TxnsOk(s) && t in s.txns && u in s.txns && t != u
    requires p in s.txns[t].dirtied || HoldsX(s.locks, t, p)
    ensures p !in s.txns[u].dirtied && !Touches(s.txns[u].ops, p)
  {
    assert TxnOk(s, t, s.txns[t]) && TxnOk(s, u, s.txns[u]);
    WrittenTouched(s.txns[t].ops, p);
    assert Holds(s.locks, t, p, Exclusive);
    WrittenTouched(s.txns[u].ops, p);
    assert !Holds(s.locks, u, p, Shared);
  }

  // ----- log growth

  lemma LogGrows(init: Disk, log: seq<Record>, history: seq<Done>, r: Record)
    requires !r.Commit?
    requires |CommitIds(log)| == |history| && (forall i :: 0 <= i < |history| ==> history[i].txn == CommitIds(log)[i])
    requires forall n :: 0 <= n <= |log| ==> PrefixOk(init, log, history, n)
    requires r.Update? ==> r.txn !in CommitSet(log)
    ensures CommitIds(log + [r]) == CommitIds(log) && CommitSet(log + [r]) == CommitSet(log)
    ensures forall n :: 0 <= n <= |log| + 1 ==> PrefixOk(init, log + [r], history, n)
  {
    var log1 := log + [r];
    CommitSetSnoc(log, r);
    RedoSnoc(init, log, CommitSet(log), r);
    assert log1[..|log1|] == log1 && log[..|log|] == log;
    forall n | 0 <= n <= |log| + 1
      ensures PrefixOk(init, log1, history, n)
    {
      if n <= |log| {
        assert log1[..n] == log[..n];
        assert PrefixOk(init, log, history, n);
      } else {
        assert PrefixOk(init, log, history, |log|);
        assert log1[..n] == log1;
      }
    }
  }

  lemma {:induction false} InCommitSet(log: seq<Record>, t: TxnId)
    ensures t in CommitSet(log) <==> exists i :: 0 <= i < |log| && log[i] == Commit(t)
  {
    if log != [] {
      var n := |log| - 1;
      InCommitSet(log[..n], t);
      if t in CommitSet(log[..n]) {
        var i :| 0 <= i < n && log[..n][i] == Commit(t);
        assert log[i] == Commit(t);
      }
      if i :| 0 <= i < |log| && log[i] == Commit(t) {
        if i < n { assert log[..n][i] == log[i]; }
      }
    }
  }

  lemma {:induction false} CommitSetPrefix(log: seq<Record>, m: nat, n: nat)
    requires m <= n <= |log|
    ensures CommitSet(log[..m]) <= CommitSet(log[..n])
    ensures CommitIds(log[..m]) <= CommitIds(log[..n])
    decreases n
  {
    if m < n {
      CommitSetPrefix(log, m, n - 1);
      assert log[..n][..n - 1] == log[..n - 1];
    }
  }
}
