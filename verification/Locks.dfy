/**
 The page-level lock table (src/txn/lock_manager.cpp): shared and exclusive
 locks, in-place upgrade, and wait-die. `Request` is one pass of AcquireLock's loop.
 */
module Locks {
  import opened Wrappers

  type TxnId = nat

  /** A page of one table's or index's file (src/txn/lock_manager.h). */
  datatype PageKey = PageKey(objectId: nat, pageId: nat)

  datatype LockMode = Shared | Exclusive

  datatype LockEntry = LockEntry(shared: set<TxnId>, exclusive: Option<TxnId>)

  type LockTable = map<PageKey, LockEntry>

  datatype Verdict = Granted(locks: LockTable) | MustWait | MustDie

  predicate ConflictsWithOthers(e: LockEntry, t: TxnId, mode: LockMode) {
    || (e.exclusive.Some? && e.exclusive.value != t)
    || (mode.Exclusive? && e.shared - {t} != {})
  }

  function Holders(e: LockEntry): set<TxnId> {
    e.shared + if e.exclusive.Some? then {e.exclusive.value} else {}
  }

  function OtherHolders(e: LockEntry, t: TxnId): set<TxnId> {
    Holders(e) - {t}
  }

  predicate OlderThanAll(t: TxnId, others: set<TxnId>) {
    forall h :: h in others ==> t < h
  }

  function Granting(e: LockEntry, t: TxnId, mode: LockMode): LockEntry {
    if mode.Exclusive? then LockEntry(e.shared - {t}, Some(t)) else LockEntry(e.shared + {t}, e.exclusive)
  }

  function Request(locks: LockTable, t: TxnId, key: PageKey, mode: LockMode): (v: Verdict) {
    if key !in locks then Granted(locks[key := Granting(LockEntry({}, None), t, mode)])
    else
      var e := locks[key];
      if e.exclusive == Some(t) || (mode.Shared? && t in e.shared) then Granted(locks)
      else if !ConflictsWithOthers(e, t, mode) then Granted(locks[key := Granting(e, t, mode)])
      else if OlderThanAll(t, OtherHolders(e, t)) then MustWait
      else MustDie
  }

  function WithoutTxn(e: LockEntry, t: TxnId): LockEntry {
    LockEntry(e.shared - {t}, if e.exclusive == Some(t) then None else e.exclusive)
  }

  /** Every hold of `t` dropped, entries nobody holds removed. */
  function Released(locks: LockTable, t: TxnId): LockTable {
    map key | key in locks && Holders(WithoutTxn(locks[key], t)) != {} :: WithoutTxn(locks[key], t)
  }

  predicate HoldsAny(locks: LockTable, t: TxnId) {
    exists key :: key in locks && t in Holders(locks[key])
  }

  // ----- what the table means

  ghost predicate Holds(locks: LockTable, t: TxnId, key: PageKey, mode: LockMode) {
    key in locks && (locks[key].exclusive == Some(t) || (mode.Shared? && t in locks[key].shared))
  }

  /** An exclusive holder is alone, and every entry has a holder. */
  ghost predicate Sound(locks: LockTable) {
    forall key :: key in locks ==>
      Holders(locks[key]) != {} && (locks[key].exclusive.Some? ==> locks[key].shared == {})
  }

  /** A granted request gives the lock asked for, takes nothing from anyone and touches no other page. */
  lemma RequestGrants(locks: LockTable, t: TxnId, key: PageKey, mode: LockMode)
    requires Sound(locks) && Request(locks, t, key, mode).Granted?
    ensures var l := Request(locks, t, key, mode).locks;
            && Sound(l) && Holds(l, t, key, mode)
            && (forall u, k, m :: Holds(locks, u, k, m) ==> Holds(l, u, k, m))
            && (forall u, k, m :: Holds(l, u, k, m) && !Holds(locks, u, k, m) ==> u == t && k == key)
            && l.Keys == locks.Keys + {key}
  {
    var l := Request(locks, t, key, mode).locks;
    if key !in locks {
      assert Holders(l[key]) == {t};
    } else if l != locks {
      assert t in Holders(l[key]);
      if mode.Exclusive? { assert locks[key].shared - {t} == {}; }
    }
  }

  /** A request is granted exactly when nobody else holds the page in a conflicting mode. */
  lemma GrantedIffCompatible(locks: LockTable, t: TxnId, key: PageKey, mode: LockMode)
    requires Sound(locks)
    ensures Request(locks, t, key, mode).Granted? <==>
            forall u :: u != t && Holds(locks, u, key, Shared) ==> mode.Shared? && !Holds(locks, u, key, Exclusive)
  {
    if key in locks {
      var e := locks[key];
      if ConflictsWithOthers(e, t, mode) && !Request(locks, t, key, mode).Granted? {
        if e.exclusive.Some? && e.exclusive.value != t {
          assert Holds(locks, e.exclusive.value, key, Exclusive) && Holds(locks, e.exclusive.value, key, Shared);
        } else {
          var u :| u in e.shared - {t};
          assert Holds(locks, u, key, Shared);
        }
      } else if mode.Exclusive? && e.exclusive == Some(t) {
        assert e.shared == {};
      }
    }
  }

  lemma ReleaseDrops(locks: LockTable, t: TxnId)
    requires Sound(locks)
    ensures Sound(Released(locks, t))
    ensures forall u, k, m :: Holds(Released(locks, t), u, k, m) <==> u != t && Holds(locks, u, k, m)
    ensures Released(locks, t).Keys <= locks.Keys
  {
    var l := Released(locks, t);
    forall u, k, m | u != t && Holds(locks, u, k, m)
      ensures Holds(l, u, k, m)
    {
      assert u in Holders(WithoutTxn(locks[k], t));
    }
  }

  /** Releasing for a transaction that holds nothing changes nothing. */
  lemma ReleaseNothing(locks: LockTable, t: TxnId)
    requires Sound(locks) && !HoldsAny(locks, t)
    ensures Released(locks, t) == locks
  {
    forall key | key in locks
      ensures WithoutTxn(locks[key], t) == locks[key]
    {
      assert t !in Holders(locks[key]);
    }
  }

  // ----- the lock manager object

  /** held_by_txn_ lists exactly the pages each transaction holds. */
  ghost predicate Indexed(locks: LockTable, held: map<TxnId, set<PageKey>>) {
    && (forall t, key :: t in held && key in held[t] ==> Holds(locks, t, key, Shared))
    && (forall t, key :: Holds(locks, t, key, Shared) ==> t in held && key in held[t])
    && (forall t :: t in held ==> held[t] != {})
  }

  /** The table after the loop of ReleaseAll has visited the pages in `visited`. */
  function ReleasedOn(locks: LockTable, t: TxnId, visited: set<PageKey>): LockTable {
    map key | key in locks && (key in visited ==> Holders(WithoutTxn(locks[key], t)) != {}) ::
      if key in visited then WithoutTxn(locks[key], t) else locks[key]
  }

  lemma ReleasedOnStep(locks: LockTable, t: TxnId, visited: set<PageKey>, key: PageKey)
    requires key !in visited
    ensures var before, after := ReleasedOn(locks, t, visited), ReleasedOn(locks, t, visited + {key});
            if key !in before then after == before
            else if Holders(WithoutTxn(before[key], t)) == {} then after == before - {key}
            else after == before[key := WithoutTxn(before[key], t)]
  {
  }

  lemma ReleasedOnAll(locks: LockTable, held: map<TxnId, set<PageKey>>, t: TxnId)
    requires Sound(locks) && Indexed(locks, held) && t in held
    ensures ReleasedOn(locks, t, held[t]) == Released(locks, t)
    ensures Indexed(Released(locks, t), held - {t})
  {
    forall key | key in locks && key !in held[t]
      ensures WithoutTxn(locks[key], t) == locks[key]
    {
      assert !Holds(locks, t, key, Shared);
    }
    ReleaseDrops(locks, t);
    forall u, key | u in held - {t} && key in held[u]
      ensures Holds(Released(locks, t), u, key, Shared)
    {
      assert Holds(locks, u, key, Shared);
    }
  }

  lemma ListedHolds(locks: LockTable, held: map<TxnId, set<PageKey>>, t: TxnId)
    requires Indexed(locks, held) && t in held
    ensures HoldsAny(locks, t)
  {
    var key :| key in held[t];
    assert Holds(locks, t, key, Shared);
  }

  class LockManager {
    var locks: LockTable
    var held: map<TxnId, set<PageKey>>

    ghost predicate Valid()
      reads this
    {
      Sound(locks) && Indexed(locks, held)
    }

    constructor ()
      ensures Valid() && locks == map[] && held == map[]
    {
      locks, held := map[], map[];
    }

    /** One pass of the AcquireLock loop: returns the verdict and installs the lock when granted. */
    method AcquireOnce(t: TxnId, key: PageKey, mode: LockMode) returns (v: Verdict)
      requires Valid()
      modifies this
      ensures Valid() && v == Request(old(locks), t, key, mode)
      ensures locks == if v.Granted? then v.locks else old(locks)
      ensures !v.Granted? ==> held == old(held)
    {
      ghost var before := locks;
      if key !in locks {
        RequestGrants(locks, t, key, mode);
        locks := locks[key := Granting(LockEntry({}, None), t, mode)];
        NoteHeld(t, key, before);
        return Granted(locks);
      }
      var e := locks[key];
      if e.exclusive == Some(t) { return Granted(locks); }
      if mode.Shared? && t in e.shared { return Granted(locks); }
      if !ConflictsWithOthers(e, t, mode) {
        RequestGrants(locks, t, key, mode);
        locks := locks[key := Granting(e, t, mode)];
        NoteHeld(t, key, before);
        return Granted(locks);
      }
      var others := OtherHolders(e, t);
      var rest, olderThanAll := others, true;
      while rest != {}
        invariant rest <= others
        invariant olderThanAll && forall h :: h in others && h !in rest ==> t < h
        decreases rest
      {
        var h :| h in rest;
        if !(t < h) {
          olderThanAll := false;
          break;
        }
        rest := rest - {h};
      }
      if olderThanAll { return MustWait; }
      return MustDie;
    }

    method NoteHeld(t: TxnId, key: PageKey, ghost before: LockTable)
      requires Indexed(before, held) && Holds(locks, t, key, Shared)
      requires forall u, k, m :: Holds(before, u, k, m) ==> Holds(locks, u, k, m)
      requires forall u, k, m :: Holds(locks, u, k, m) && !Holds(before, u, k, m) ==> u == t && k == key
      modifies this`held
      ensures Indexed(locks, held)
    {
      held := held[t := (if t in held then held[t] else {}) + {key}];
    }

    /** Releases everything `t` holds, walking its own list of pages, and wakes the waiters if there was anything. */
    method ReleaseAll(t: TxnId) returns (notified: bool)
      requires Valid()
      modifies this
      ensures Valid() && locks == Released(old(locks), t)
      ensures notified <==> HoldsAny(old(locks), t)
    {
      ghost var before := locks;
      ReleaseDrops(before, t);
      if t !in held {
        forall key | key in locks ensures t !in Holders(locks[key]) {
          assert !Holds(locks, t, key, Shared);
        }
        ReleaseNothing(locks, t);
        return false;
      }
      notified := true;
      ListedHolds(locks, held, t);
      var mine := held[t];
      var rest := mine;
      assert locks == ReleasedOn(before, t, mine - rest);
      while rest != {}
        invariant rest <= mine && held == old(held)
        invariant locks == ReleasedOn(before, t, mine - rest)
        decreases rest
      {
        var key :| key in rest;
        ReleasedOnStep(before, t, mine - rest, key);
        assert mine - (rest - {key}) == mine - rest + {key};
        rest := rest - {key};
        if key in locks {
          var e := WithoutTxn(locks[key], t);
          if e.shared == {} && e.exclusive.None? {
            locks := locks - {key};
          } else {
            locks := locks[key := e];
          }
        }
      }
      assert mine - rest == mine;
      ReleasedOnAll(before, held, t);
      held := held - {t};
    }
  }
}
