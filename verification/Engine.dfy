/**
 The transactional engine as a step system: lock table, page cache, data file,
 log and fsynced prefix, with one step per latched action of TransactionManager,
 LockManager, BufferPool and LogManager. Any number of transactions interleave.
 */
module Engine {
  import opened Wrappers
  import opened Locks
  import opened Serial
  import opened Recovery

  /** Where a transaction is in its life (src/txn/transaction_manager.cpp:62-142). */
  datatype Phase =
    | Running
    | Logging(logged: set<PageKey>)               // Commit: Update records appended so far
    | Syncing(at: nat)                            // Commit record appended at this log index, fsync not confirmed
    | Forcing(at: nat, todo: set<PageKey>)        // fsync confirmed, pages still to be flushed
    | Undoing(todo: set<PageKey>)                 // Abort: pages still to be reloaded

  datatype Txn = Txn(phase: Phase, ops: seq<Op>, dirtied: set<PageKey>)

  datatype Wanted = Wanted(key: PageKey, mode: LockMode)

  datatype State = State(
    init: Disk,                      // the data files when the engine started
    disk: Disk,                      // the data files; its keys are the allocated pages
    forced: set<PageKey>,            // pages ever written back
    cache: Disk,
    dirty: set<PageKey>,
    log: seq<Record>,
    synced: nat,                     // records known to be on stable storage
    locks: LockTable,
    sleepers: map<TxnId, Wanted>,    // waiting in AcquireLock, not notified since
    txns: map<TxnId, Txn>,
    nextTxn: TxnId,
    history: seq<Done>,              // committed transactions, in Commit-record order
    returned: set<TxnId>)            // transactions whose Commit call has returned

  datatype Label =
    | LBegin
    | LAcquire(t: TxnId, key: PageKey, mode: LockMode)
    | LWake(t: TxnId)
    | LRead(t: TxnId, key: PageKey)
    | LWrite(t: TxnId, key: PageKey, image: Image)
    | LNewPage(t: TxnId, key: PageKey)
    | LCommitStart(t: TxnId)
    | LLogUpdate(t: TxnId, key: PageKey)
    | LLogCommit(t: TxnId)
    | LSync(upTo: nat)
    | LSynced(t: TxnId)
    | LForce(t: TxnId, key: PageKey)
    | LCommitEnd(t: TxnId)
    | LAbortStart(t: TxnId)
    | LAbortFailed(t: TxnId)
    | LUndo(t: TxnId, key: PageKey)
    | LAbortEnd(t: TxnId)

  function Initial(files: Disk): State {
    State(files, files, {}, map[], {}, [], 0, map[], map[], map[], 1, [], {})
  }

  /** What FetchPage returns: the cached page, else the page on file. */
  function View(s: State, p: PageKey): Image {
    if p in s.cache then s.cache[p] else Lookup(s.disk, p)
  }

  predicate Active(s: State, t: TxnId) {
    t in s.txns && t !in s.sleepers && s.txns[t].phase.Running?
  }

  /**
   On file, the pages the transaction dirtied hold what they hold in the cache. Aborting it after its commit failed then
   takes back no change; only such aborts are steps here (LAbortFailed), and FailedCommit shows what the others do.
   */
  predicate Unchanged(s: State, t: TxnId) {
    t in s.txns && forall p :: p in s.txns[t].dirtied ==> View(s, p) == Lookup(s.disk, p)
  }

  predicate HoldsX(locks: LockTable, t: TxnId, key: PageKey) {
    key in locks && locks[key].exclusive == Some(t)
  }

  predicate HoldsS(locks: LockTable, t: TxnId, key: PageKey) {
    key in locks && (locks[key].exclusive == Some(t) || t in locks[key].shared)
  }

  predicate Enabled(s: State, l: Label) {
    match l
    case LBegin => true
    case LAcquire(t, key, mode) => Active(s, t) && key in s.disk && !Request(s.locks, t, key, mode).MustDie?
    case LWake(t) => t in s.sleepers
    case LRead(t, key) => Active(s, t) && HoldsS(s.locks, t, key)
    case LWrite(t, key, _) => Active(s, t) && HoldsX(s.locks, t, key) && key in s.cache
    case LNewPage(t, key) => Active(s, t) && key !in s.disk
    case LCommitStart(t) => Active(s, t)
    case LLogUpdate(t, key) =>
      t in s.txns && s.txns[t].phase.Logging? && key in s.txns[t].dirtied - s.txns[t].phase.logged && key in s.cache
    case LLogCommit(t) => t in s.txns && s.txns[t].phase == Logging(s.txns[t].dirtied)
    case LSync(upTo) => s.synced <= upTo <= |s.log|
    case LSynced(t) => t in s.txns && s.txns[t].phase.Syncing? && s.txns[t].phase.at < s.synced
    case LForce(t, key) => t in s.txns && s.txns[t].phase.Forcing? && key in s.txns[t].phase.todo
    case LCommitEnd(t) => t in s.txns && s.txns[t].phase.Forcing? && s.txns[t].phase.todo == {}
    case LAbortStart(t) => Active(s, t)
    case LAbortFailed(t) => t in s.txns && s.txns[t].phase.Syncing? && Unchanged(s, t)
    case LUndo(t, key) => t in s.txns && s.txns[t].phase.Undoing? && key in s.txns[t].phase.todo
    case LAbortEnd(t) => t in s.txns && s.txns[t].phase == Undoing({})
  }

  // ----- the effect of each step

  function SetTxn(s: State, t: TxnId, x: Txn): (s1: State)
    ensures s1.init == s.init
  {
    s.(txns := s.txns[t := x])
  }

  function DoBegin(s: State): (s1: State)
    ensures s1.init == s.init
  {
    s.(log := s.log + [Begin(s.nextTxn)], txns := s.txns[s.nextTxn := Txn(Running, [], {})], nextTxn := s.nextTxn + 1)
  }

  function DoAcquire(s: State, t: TxnId, key: PageKey, mode: LockMode): (s1: State)
    ensures s1.init == s.init
  {
    var v := Request(s.locks, t, key, mode);
    if v.Granted? then s.(locks := v.locks) else s.(sleepers := s.sleepers[t := Wanted(key, mode)])
  }

  function DoWake(s: State, t: TxnId): (s1: State)
    ensures s1.init == s.init
  {
    s.(sleepers := s.sleepers - {t})
  }

  function DoRead(s: State, t: TxnId, key: PageKey): (s1: State)
    requires t in s.txns
    ensures s1.init == s.init
  {
    var x := s.txns[t];
    SetTxn(s, t, x.(ops := x.ops + [Read(key, View(s, key))])).(cache := s.cache[key := View(s, key)])
  }

  /** A page changed in place and marked dirty on behalf of `t`. */
  function DoWrite(s: State, t: TxnId, key: PageKey, image: Image): (s1: State)
    requires t in s.txns
    ensures s1.init == s.init
  {
    var x := s.txns[t];
    SetTxn(s, t, x.(ops := x.ops + [Write(key, image)], dirtied := x.dirtied + {key}))
      .(cache := s.cache[key := image], dirty := s.dirty + {key})
  }

  function DoNewPage(s: State, t: TxnId, key: PageKey): (s1: State)
    requires t in s.txns
    ensures s1.init == s.init
  {
    DoWrite(s, t, key, ZeroPage()).(disk := s.disk[key := ZeroPage()], locks := s.locks[key := LockEntry({}, Some(t))])
  }

  function SetPhase(s: State, t: TxnId, phase: Phase): (s1: State)
    requires t in s.txns
    ensures s1.init == s.init
  {
    SetTxn(s, t, s.txns[t].(phase := phase))
  }

  function DoLogUpdate(s: State, t: TxnId, key: PageKey): (s1: State)
    requires t in s.txns && s.txns[t].phase.Logging? && key in s.cache
    ensures s1.init == s.init
  {
    SetPhase(s, t, Logging(s.txns[t].phase.logged + {key})).(log := s.log + [Update(t, key, s.cache[key])])
  }

  function DoLogCommit(s: State, t: TxnId): (s1: State)
    requires t in s.txns
    ensures s1.init == s.init
  {
    SetPhase(s, t, Syncing(|s.log|)).(log := s.log + [Commit(t)], history := s.history + [Done(t, s.txns[t].ops)])
  }

  /** BufferPool::FlushPages on one page: only a cached dirty page is written. */
  function DoForce(s: State, t: TxnId, key: PageKey): (s1: State)
    requires t in s.txns && s.txns[t].phase.Forcing?
    ensures s1.init == s.init
  {
    var r := SetPhase(s, t, Forcing(s.txns[t].phase.at, s.txns[t].phase.todo - {key}));
    if key in s.cache && key in s.dirty then
      r.(disk := s.disk[key := s.cache[key]], dirty := s.dirty - {key}, forced := s.forced + {key})
    else r
  }

  /** BufferPool::DiscardPage: a cached page is reloaded from the file. */
  function DoUndo(s: State, t: TxnId, key: PageKey): (s1: State)
    requires t in s.txns && s.txns[t].phase.Undoing?
    ensures s1.init == s.init
  {
    var r := SetPhase(s, t, Undoing(s.txns[t].phase.todo - {key}));
    if key in s.cache then r.(cache := s.cache[key := Lookup(s.disk, key)], dirty := s.dirty - {key}) else r
  }

  /** ReleaseAll wakes every sleeper, unless there was nothing to release; the transaction is gone. */
  function Leave(s: State, t: TxnId): (s1: State)
    ensures s1.init == s.init
  {
    s.(locks := Released(s.locks, t), sleepers := if HoldsAny(s.locks, t) then map[]
        else s.sleepers, txns := s.txns - {t})
  }

  function Do(s: State, l: Label): (s1: State)
    requires Enabled(s, l)
    ensures s1.init == s.init
  {
    match l
    case LBegin => DoBegin(s)
    case LAcquire(t, key, mode) => DoAcquire(s, t, key, mode)
    case LWake(t) => DoWake(s, t)
    case LRead(t, key) => DoRead(s, t, key)
    case LWrite(t, key, image) => DoWrite(s, t, key, image)
    case LNewPage(t, key) => DoNewPage(s, t, key)
    case LCommitStart(t) => SetPhase(s, t, Logging({}))
    case LLogUpdate(t, key) => DoLogUpdate(s, t, key)
    case LLogCommit(t) => DoLogCommit(s, t)
    case LSync(upTo) => s.(synced := upTo)
    case LSynced(t) => SetPhase(s, t, Forcing(s.txns[t].phase.at, s.txns[t].dirtied))
    case LForce(t, key) => DoForce(s, t, key)
    case LCommitEnd(t) => Leave(s, t).(returned := s.returned + {t})
    case LAbortStart(t) => SetPhase(s, t, Undoing(s.txns[t].dirtied))
    case LAbortFailed(t) => SetPhase(s, t, Undoing(s.txns[t].dirtied))
    case LUndo(t, key) => DoUndo(s, t, key)
    case LAbortEnd(t) => Leave(s, t).(log := s.log + [Abort(t)])
  }

  /** What a transaction does before it ends, as against the steps of Commit and Abort. */
  predicate IsWork(l: Label) {
    l.LBegin? || l.LAcquire? || l.LWake? || l.LRead? || l.LWrite? || l.LNewPage?
  }

  /** `labels` can be taken one after the other from `s`. */
  ghost predicate IsRun(s: State, labels: seq<Label>)
    decreases |labels|, 0
  {
    labels == [] ||
        (IsRun(s, labels[..|labels| - 1]) && Enabled(After(s, labels[..|labels| - 1]), labels[|labels| - 1]))
  }

  ghost function After(s: State, labels: seq<Label>): State
    requires IsRun(s, labels)
    decreases |labels|, 1
  {
    if labels == [] then s else Do(After(s, labels[..|labels| - 1]), labels[|labels| - 1])
  }

  /** The database a serial execution of the committed transactions produces. */
  function SerialState(s: State): Disk {
    ExecAll(s.init, s.history)
  }
}
