/**
 Recovery over a log that several openings have appended to. Transaction ids start at 1 on
 every opening (src/txn/transaction_manager.h:223) while the log is kept (src/db/database.cpp:35),
 so the id in a record does not say which transaction wrote it; recovery goes by the id alone.
 */
module TxnIdReuse {
  import opened Wrappers
  import opened Locks
  import opened Serial
  import opened Recovery

  /** A record and the opening that wrote it. The opening is not in the file. */
  datatype Tagged = Tagged(opening: nat, record: Record)

  function Records(log: seq<Tagged>): (rs: seq<Record>)
    ensures |rs| == |log| && forall i :: 0 <= i < |log| ==> rs[i] == log[i].record
  {
    seq(|log|, i requires 0 <= i < |log| => log[i].record)
  }

  /** The transaction that wrote record i committed. */
  ghost predicate Committed(log: seq<Tagged>, i: nat) {
    i < |log| && exists j :: 0 <= j < |log| && log[j].record.Commit? && log[j].record.txn == log[i].record.txn
                             && log[j].opening == log[i].opening
  }

  ghost predicate IdCommitted(log: seq<Tagged>, i: nat) {
    i < |log| && log[i].record.txn in CommitSet(Records(log))
  }

  ghost function Genuine(log: seq<Tagged>): set<nat> {
    set i: nat | i < |log| && log[i].record.Update? && Committed(log, i)
  }

  /** The updates that recovery replays. */
  ghost function ById(log: seq<Tagged>): set<nat> {
    set i: nat | i < |log| && log[i].record.Update? && IdCommitted(log, i)
  }

  /** An update of a transaction that never committed, replayed because another one with its id did. */
  ghost predicate Phantom(log: seq<Tagged>, i: nat) {
    i in ById(log) && i !in Genuine(log)
  }

  // ----- redo of a chosen set of records

  ghost function Replay(d: Disk, log: seq<Record>, keep: set<nat>): Disk {
    if log == [] then d
    else
      var n := |log| - 1;
      var d1 := Replay(d, log[..n], keep);
      if n in keep && log[n].Update? then d1[log[n].key := log[n].image] else d1
  }

  /** The last record of `keep` that writes p. */
  ghost function LastKept(log: seq<Record>, keep: set<nat>, p: PageKey): Option<nat> {
    if log == [] then None
    else
      var n := |log| - 1;
      if n in keep && log[n].Update? && log[n].key == p then Some(n) else LastKept(log[..n], keep, p)
  }

  lemma {:induction false} LastKeptIs(log: seq<Record>, keep: set<nat>, p: PageKey)
    ensures var l := LastKept(log, keep, p);
            && (l.Some? ==> l.value < |log| && l.value in keep && log[l.value].Update? && log[l.value].key == p)
            && forall i :: 0 <= i < |log| && i in keep && log[i].Update? && log[i].key == p ==> l.Some? && i <= l.value
  {
    if log != [] {
      var n := |log| - 1;
      LastKeptIs(log[..n], keep, p);
      assert forall i :: 0 <= i < n ==> log[..n][i] == log[i];
    }
  }

  lemma {:induction false} ReplayLast(d: Disk, log: seq<Record>, keep: set<nat>, p: PageKey)
    ensures LastKept(log, keep, p).Some? ==>
            LastKept(log, keep, p).value < |log| && log[LastKept(log, keep, p).value].Update?
    ensures Lookup(Replay(d, log, keep), p)
         == if LastKept(log, keep, p).Some? then log[LastKept(log, keep, p).value].image else Lookup(d, p)
  {
    if log != [] {
      var n := |log| - 1;
      ReplayLast(d, log[..n], keep, p);
      assert forall i :: 0 <= i < n ==> log[..n][i] == log[i];
    }
  }

  lemma {:induction false} RedoIsReplay(d: Disk, log: seq<Record>, winners: set<TxnId>, keep: set<nat>)
    requires forall i :: 0 <= i < |log| && log[i].Update? ==> (i in keep <==> log[i].txn in winners)
    ensures Redo(d, log, winners) == Replay(d, log, keep)
  {
    if log != [] {
      var n := |log| - 1;
      assert forall i :: 0 <= i < n ==> log[..n][i] == log[i];
      RedoIsReplay(d, log[..n], winners, keep);
    }
  }

  // ----- the iff

  /** Every phantom is followed by a genuine update of the same page. */
  ghost predicate PhantomsAreCovered(log: seq<Tagged>) {
    forall i: nat :: Phantom(log, i) ==>
      exists k :: k in Genuine(log) && i < k < |log| && log[k].record.Update? && log[k].record.key == log[i].record.key
  }

  /** Page p comes back as the last genuinely committed update left it. */
  ghost predicate RightRecord(log: seq<Tagged>, p: PageKey) {
    LastKept(Records(log), ById(log), p) == LastKept(Records(log), Genuine(log), p)
  }

  lemma {:induction false} CommitSetHas(rs: seq<Record>, i: nat)
    requires i < |rs| && rs[i].Commit?
    ensures rs[i].txn in CommitSet(rs)
  {
    var n := |rs| - 1;
    if i < n {
      CommitSetHas(rs[..n], i);
    }
  }

  lemma GenuineIsReplayed(log: seq<Tagged>)
    ensures Genuine(log) <= ById(log)
  {
    forall i | i in Genuine(log) ensures i in ById(log) {
      var j :| 0 <= j < |log| && log[j].record.Commit? && log[j].record.txn == log[i].record.txn
               && log[j].opening == log[i].opening;
      CommitSetHas(Records(log), j);
    }
  }

  /** Recovery picks the right record for every page exactly when every phantom is covered. */
  lemma ReuseIsHarmlessIff(log: seq<Tagged>)
    ensures (forall p :: RightRecord(log, p)) <==> PhantomsAreCovered(log)
  {
    GenuineIsReplayed(log);
    var rs := Records(log);
    if PhantomsAreCovered(log) {
      forall p ensures RightRecord(log, p) {
        LastKeptIs(rs, ById(log), p);
        LastKeptIs(rs, Genuine(log), p);
      }
    }
    if forall p :: RightRecord(log, p) {
      forall i: nat | Phantom(log, i)
        ensures exists k ::
                  k in Genuine(log) && i < k < |log| && log[k].record.Update? && log[k].record.key == log[i].record.key
      {
        var p := log[i].record.key;
        LastKeptIs(rs, ById(log), p);
        LastKeptIs(rs, Genuine(log), p);
        assert RightRecord(log, p) && rs[i].key == p;
        var k := LastKept(rs, ById(log), p).value;
        assert k in Genuine(log) && i < k && log[k].record.key == p;
      }
    }
  }

  /** What recovery leaves on a page: the image of the last update it picked by id. */
  lemma RecoveredPage(d: Disk, log: seq<Tagged>, p: PageKey)
    ensures var rs := Records(log);
            var l := LastKept(rs, ById(log), p);
            && (l.Some? ==> l.value < |rs| && rs[l.value].Update?)
            && Lookup(Recovered(d, rs), p) == if l.Some? then rs[l.value].image else Lookup(d, p)
  {
    RedoIsReplay(d, Records(log), CommitSet(Records(log)), ById(log));
    ReplayLast(d, Records(log), ById(log), p);
  }

  /** With every phantom covered, the disk is what replaying only genuinely committed updates gives. */
  lemma CoveredRecovery(d: Disk, log: seq<Tagged>, p: PageKey)
    requires PhantomsAreCovered(log)
    ensures Lookup(Recovered(d, Records(log)), p) == Lookup(Replay(d, Records(log), Genuine(log)), p)
  {
    ReuseIsHarmlessIff(log);
    assert RightRecord(log, p);
    RecoveredPage(d, log, p);
    ReplayLast(d, Records(log), Genuine(log), p);
  }

  /** Otherwise some page comes back, from any disk, with the image of a transaction that never committed. */
  lemma UncoveredPhantomSurfaces(log: seq<Tagged>) returns (p: PageKey, i: nat)
    requires !PhantomsAreCovered(log)
    ensures Phantom(log, i) && i < |log| && log[i].record.Update? && log[i].record.key == p
    ensures forall d :: Lookup(Recovered(d, Records(log)), p) == log[i].record.image
  {
    ReuseIsHarmlessIff(log);
    p :| !RightRecord(log, p);
    var rs := Records(log);
    LastKeptIs(rs, ById(log), p);
    LastKeptIs(rs, Genuine(log), p);
    GenuineIsReplayed(log);
    i := LastKept(rs, ById(log), p).value;
    forall d ensures Lookup(Recovered(d, rs), p) == log[i].record.image {
      RecoveredPage(d, log, p);
    }
  }

  /** One opening writes page p under id 1 and crashes; the next commits an empty transaction 1. */
  function CrashThenCommit(t: TxnId, p: PageKey, image: Image): seq<Tagged> {
    [Tagged(0, Begin(t)), Tagged(0, Update(t, p, image)), Tagged(1, Begin(t)), Tagged(1, Commit(t))]
  }

  lemma ReuseReplaysUncommitted(d: Disk, t: TxnId, p: PageKey, image: Image)
    ensures Lookup(Recovered(d, Records(CrashThenCommit(t, p, image))), p) == image
    ensures Phantom(CrashThenCommit(t, p, image), 1)
  {
    var log := CrashThenCommit(t, p, image);
    CommitSetHas(Records(log), 3);
    assert 1 in ById(log) && 1 !in Genuine(log);
    RecoveredPage(d, log, p);
    LastKeptIs(Records(log), ById(log), p);
  }

  /** Ids that no other opening commits leave no phantoms: one opening from an empty log is such a log. */
  lemma OneOpeningIsHarmless(log: seq<Tagged>)
    requires forall i, j :: 0 <= i < |log| && 0 <= j < |log| ==> log[i].opening == log[j].opening
    ensures PhantomsAreCovered(log)
  {
    forall i | i in ById(log) ensures i in Genuine(log) {
      CommitSetFinds(Records(log), log[i].record.txn);
    }
  }

  lemma {:induction false} CommitSetFinds(rs: seq<Record>, t: TxnId)
    requires t in CommitSet(rs)
    ensures exists j :: 0 <= j < |rs| && rs[j].Commit? && rs[j].txn == t
  {
    var n := |rs| - 1;
    if rs[n].Commit? && rs[n].txn == t {
    } else {
      CommitSetFinds(rs[..n], t);
      var j :| 0 <= j < n && rs[..n][j].Commit? && rs[..n][j].txn == t;
      assert rs[j].Commit?;
    }
  }
}
