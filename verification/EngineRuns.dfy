/** Taking runs of the engine apart and putting them together. */
module EngineRuns {
  import opened Locks
  import opened Serial
  import opened Recovery
  import opened Engine

  lemma RunSnoc(s: State, labels: seq<Label>, l: Label)
    requires IsRun(s, labels) && Enabled(After(s, labels), l)
    ensures IsRun(s, labels + [l]) && After(s, labels + [l]) == Do(After(s, labels), l)
  {
    assert (labels + [l])[..|labels|] == labels;
  }

  /** The state after the first `i` steps. */
  ghost function At(files: Disk, labels: seq<Label>, i: nat): State
    requires IsRun(Initial(files), labels) && i <= |labels|
  {
    PrefixIsRun(files, labels, i);
    After(Initial(files), labels[..i])
  }

  lemma {:induction false} PrefixIsRun(files: Disk, labels: seq<Label>, i: nat)
    requires IsRun(Initial(files), labels) && i <= |labels|
    ensures IsRun(Initial(files), labels[..i])
    decreases |labels|
  {
    if i == |labels| {
      assert labels[..i] == labels;
    } else {
      PrefixIsRun(files, labels[..|labels| - 1], i);
      assert labels[..|labels| - 1][..i] == labels[..i];
    }
  }

  lemma AtNext(files: Disk, labels: seq<Label>, i: nat)
    requires IsRun(Initial(files), labels) && i < |labels|
    ensures Enabled(At(files, labels, i), labels[i]) && At(files, labels, i + 1) == Do(At(files, labels, i), labels[i])
  {
    PrefixIsRun(files, labels, i + 1);
    assert labels[..i + 1][..i] == labels[..i];
  }

  lemma {:induction false} RunCons(s: State, l: Label, ls: seq<Label>)
    requires Enabled(s, l) && IsRun(Do(s, l), ls)
    ensures IsRun(s, [l] + ls) && After(s, [l] + ls) == After(Do(s, l), ls)
  {
    if ls == [] {
      RunSnoc(s, [], l);
      assert [l] + ls == [] + [l];
    } else {
      var n := |ls| - 1;
      RunCons(s, l, ls[..n]);
      RunSnoc(s, [l] + ls[..n], ls[n]);
      assert [l] + ls == [l] + ls[..n] + [ls[n]];
    }
  }

  lemma {:induction false} RunConcat(s: State, a: seq<Label>, b: seq<Label>)
    requires IsRun(s, a) && IsRun(After(s, a), b)
    ensures IsRun(s, a + b) && After(s, a + b) == After(After(s, a), b)
  {
    if b == [] {
      assert a + b == a;
    } else {
      var n := |b| - 1;
      RunConcat(s, a, b[..n]);
      RunSnoc(s, a + b[..n], b[n]);
      assert a + b == a + b[..n] + [b[n]];
    }
  }

  // ----- reloading every page an abort has to

  /** The state once every page still to be reloaded has been. */
  function AllUndone(s: State, t: TxnId): State
    requires t in s.txns && s.txns[t].phase.Undoing?
  {
    var todo := s.txns[t].phase.todo;
    SetPhase(s, t, Undoing({})).(cache := Discarded(s.cache, s.disk, todo), dirty := s.dirty - todo)
  }

  lemma SetPhaseTwice(s: State, s1: State, t: TxnId, a: Phase, b: Phase)
    requires t in s.txns && s1.txns == SetPhase(s, t, a).txns
    ensures SetPhase(s1, t, b).txns == SetPhase(s, t, b).txns
  {
  }

  lemma AllUndoneStep(s: State, t: TxnId, key: PageKey)
    requires t in s.txns && s.txns[t].phase.Undoing? && key in s.txns[t].phase.todo
    requires s.txns[t].phase.todo <= s.cache.Keys
    ensures AllUndone(DoUndo(s, t, key), t) == AllUndone(s, t)
  {
    var s1, todo := DoUndo(s, t, key), s.txns[t].phase.todo;
    SetPhaseTwice(s, s1, t, Undoing(todo - {key}), Undoing({}));
    assert Discarded(s1.cache, s.disk, todo - {key}) == Discarded(s.cache, s.disk, todo);
    assert s1.dirty - (todo - {key}) == s.dirty - todo;
  }

  /** From any state, good or bad, the undo steps of an abort. */
  lemma {:induction false} UndoRun(s: State, t: TxnId) returns (ls: seq<Label>)
    requires t in s.txns && s.txns[t].phase.Undoing? && s.txns[t].phase.todo <= s.cache.Keys
    ensures IsRun(s, ls) && After(s, ls) == AllUndone(s, t)
    ensures forall l :: l in ls ==> l.LUndo?
    decreases s.txns[t].phase.todo
  {
    var todo := s.txns[t].phase.todo;
    if todo == {} {
      ls := [];
      assert s.txns[t := s.txns[t]] == s.txns;
      assert Discarded(s.cache, s.disk, {}) == s.cache;
      assert AllUndone(s, t) == s;
    } else {
      var key :| key in todo;
      AllUndoneStep(s, t, key);
      var rest := UndoRun(DoUndo(s, t, key), t);
      RunCons(s, LUndo(t, key), rest);
      ls := [LUndo(t, key)] + rest;
    }
  }

  /** The engine after the whole of Abort. */
  function Aborted(s: State, t: TxnId): State
    requires t in s.txns
  {
    var s1 := AllUndone(SetPhase(s, t, Undoing(s.txns[t].dirtied)), t);
    Leave(s1, t).(log := s1.log + [Abort(t)])
  }

  lemma AbortRun(s: State, t: TxnId) returns (ls: seq<Label>)
    requires t in s.txns && s.txns[t].dirtied <= s.cache.Keys
    ensures var s1 := SetPhase(s, t, Undoing(s.txns[t].dirtied));
            IsRun(s1, ls) && After(s1, ls) == Aborted(s, t)
    ensures forall l :: l in ls ==> l.LUndo? || l.LAbortEnd?
  {
    var s1 := SetPhase(s, t, Undoing(s.txns[t].dirtied));
    var undos := UndoRun(s1, t);
    RunSnoc(s1, undos, LAbortEnd(t));
    ls := undos + [LAbortEnd(t)];
  }

  // ----- runs that only begin transactions

  /** Transactions 1 to n have begun and nothing else has happened. */
  ghost predicate OnlyBegun(files: Disk, s: State, n: nat) {
    && s.init == files && s.disk == files && s.cache == map[] && s.dirty == {} && s.forced == {}
    && s.locks == map[] && s.sleepers == map[] && s.history == [] && s.returned == {} && s.synced == 0
    && s.nextTxn == n + 1
    && (forall t :: 1 <= t <= n ==> t in s.txns && s.txns[t] == Txn(Running, [], {}))
    && (forall i :: 0 <= i < |s.log| ==> s.log[i].Begin?)
  }

  ghost predicate Begun(files: Disk, ls: seq<Label>, n: nat) {
    IsRun(Initial(files), ls) && OnlyBegun(files, After(Initial(files), ls), n)
  }

  lemma NoneBegun(files: Disk)
    ensures Begun(files, [], 0)
  {
  }

  lemma BeginStep(files: Disk, s: State, n: nat)
    requires OnlyBegun(files, s, n)
    ensures Enabled(s, LBegin) && OnlyBegun(files, Do(s, LBegin), n + 1)
  {
  }

  lemma OneMoreBegun(files: Disk, ls: seq<Label>, n: nat)
    requires Begun(files, ls, n)
    ensures Begun(files, ls + [LBegin], n + 1)
  {
    BeginStep(files, After(Initial(files), ls), n);
    RunSnoc(Initial(files), ls, LBegin);
  }

  lemma {:induction false} AllBegun(files: Disk, n: nat) returns (ls: seq<Label>)
    ensures Begun(files, ls, n)
  {
    if n == 0 {
      ls := [];
    } else {
      var before := AllBegun(files, n - 1);
      OneMoreBegun(files, before, n - 1);
      ls := before + [LBegin];
    }
  }
}
