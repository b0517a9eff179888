/**
 A run in which aborting a failed commit loses: transaction 1 adds a page and writes it, logs its Commit, and the
 fsync fails; it is aborted. Transaction 2 reads the page as it was, commits, and its fsync makes the whole log
 stable. After a crash, recovery brings back the change that was aborted (src/sql/session.cpp:77-85,
 src/wal/recovery.cpp:9-26).
 */
module FailedCommitRun {
  import opened Wrappers
  import opened Locks
  import opened Serial
  import opened Recovery
  import opened GroupedEngine
  import opened FailedCommit
  import E = Engine
  import G = GroupCommit
  import T = EngineTheorems

  /** The run gets from `s` to `e`. */
  ghost predicate Leads(s: State, ls: seq<Label>, e: State) {
    IsRun(s, ls) && After(s, ls) == e
  }

  lemma Then(s: State, ls: seq<Label>, m: State, l: Label, e: State)
    requires Leads(s, ls, m) && Enabled(m, l) && Step(m, l) == e
    ensures Leads(s, ls + [l], e)
  {
    assert (ls + [l])[..|ls|] == ls;
  }

  /** An engine step that leaves the fsync to others. */
  lemma ThenAct(s: State, ls: seq<Label>, m: State, l: E.Label, e: E.State)
    requires Leads(s, ls, m) && Plain(l) && E.Enabled(m.engine, l) && E.Do(m.engine, l) == e
    ensures Leads(s, ls + [Act(l)], State(e, m.flush.(appended := |e.log|)))
  {
    Then(s, ls, m, Act(l), State(e, m.flush.(appended := |e.log|)));
  }

  // ----- the engine's states

  function Ops(p: PageKey, image: Image): seq<Op> {
    [Write(p, ZeroPage()), Write(p, image)]
  }

  /** Transaction 1 at work: the file has the new page, the cache the change. */
  function Working(files: Disk, p: PageKey, image: Image, phase: E.Phase, log: seq<Record>, history: seq<Done>)
    : E.State
  {
    E.State(files, files[p := ZeroPage()], {}, map[p := image], {p}, log, 0, map[p := LockEntry({}, Some(1))], map[],
            map[1 := E.Txn(phase, Ops(p, image), {p})], 2, history, {})
  }

  function Committing(p: PageKey, image: Image): seq<Record> {
    [Begin(1), Update(1, p, image), Commit(1)]
  }

  function FirstDone(p: PageKey, image: Image): seq<Done> {
    [Done(1, Ops(p, image))]
  }

  /** After the abort, with the Commit record still in the log. */
  function Reloaded(files: Disk, p: PageKey, image: Image, phase: E.Phase): E.State {
    E.State(files, files[p := ZeroPage()], {}, map[p := ZeroPage()], {}, Committing(p, image), 0,
            map[p := LockEntry({}, Some(1))], map[], map[1 := E.Txn(phase, Ops(p, image), {p})], 2,
            FirstDone(p, image), {})
  }

  /** Transaction 2 at work. */
  function Reading(files: Disk, p: PageKey, image: Image, locks: LockTable, x: E.Txn, log: seq<Record>, synced: nat,
                   history: seq<Done>): E.State {
    E.State(files, files[p := ZeroPage()], {}, map[p := ZeroPage()], {}, log, synced, locks, map[], map[2 := x], 3,
            history, {})
  }

  lemma OnePhase(x: E.Txn, y: E.Txn)
    ensures (map[1 := x])[1 := y] == map[1 := y]
  {
  }

  lemma OnePage(p: PageKey)
    ensures {} + {p} == {p} && {p} + {p} == {p} && {p} - {p} == {}
  {
  }

  lemma AddedPage(files: Disk, p: PageKey)
    requires p !in files
    ensures var e := E.DoBegin(E.Initial(files));
            && E.Enabled(e, E.LNewPage(1, p))
            && E.DoNewPage(e, 1, p)
               == Working(files, p, ZeroPage(), E.Running, [Begin(1)], []).(
                    txns := map[1 := E.Txn(E.Running, [Write(p, ZeroPage())], {p})])
  {
    OnePage(p);
    assert [] + [Begin(1)] == [Begin(1)] && [] + [Write(p, ZeroPage())] == [Write(p, ZeroPage())];
    OnePhase(E.Txn(E.Running, [], {}), E.Txn(E.Running, [Write(p, ZeroPage())], {p}));
  }

  lemma Wrote(files: Disk, p: PageKey, image: Image)
    ensures var e := Working(files, p, ZeroPage(), E.Running, [Begin(1)], []).(
                       txns := map[1 := E.Txn(E.Running, [Write(p, ZeroPage())], {p})]);
            E.Enabled(e, E.LWrite(1, p, image))
            && E.DoWrite(e, 1, p, image) == Working(files, p, image, E.Running, [Begin(1)], [])
  {
    OnePage(p);
    assert [Write(p, ZeroPage())] + [Write(p, image)] == Ops(p, image);
    OnePhase(E.Txn(E.Running, [Write(p, ZeroPage())], {p}), E.Txn(E.Running, Ops(p, image), {p}));
  }

  lemma Logged(files: Disk, p: PageKey, image: Image)
    ensures var e := Working(files, p, image, E.Logging({}), [Begin(1)], []);
            E.Enabled(e, E.LLogUpdate(1, p))
            && E.DoLogUpdate(e, 1, p) == Working(files, p, image, E.Logging({p}), [Begin(1), Update(1, p, image)], [])
  {
    assert [Begin(1)] + [Update(1, p, image)] == [Begin(1), Update(1, p, image)];
    OnePage(p);
    OnePhase(E.Txn(E.Logging({}), Ops(p, image), {p}), E.Txn(E.Logging({p}), Ops(p, image), {p}));
  }

  lemma LoggedCommit(files: Disk, p: PageKey, image: Image)
    ensures var e := Working(files, p, image, E.Logging({p}), [Begin(1), Update(1, p, image)], []);
            E.Enabled(e, E.LLogCommit(1))
            && E.DoLogCommit(e, 1)
               == Working(files, p, image, E.Syncing(2), Committing(p, image), FirstDone(p, image))
  {
    assert [Begin(1), Update(1, p, image)] + [Commit(1)] == Committing(p, image);
    assert [] + [Done(1, Ops(p, image))] == FirstDone(p, image);
    OnePhase(E.Txn(E.Logging({p}), Ops(p, image), {p}), E.Txn(E.Syncing(2), Ops(p, image), {p}));
  }

  lemma Undone(files: Disk, p: PageKey, image: Image)
    ensures var e := Working(files, p, image, E.Undoing({p}), Committing(p, image), FirstDone(p, image));
            E.Enabled(e, E.LUndo(1, p)) && E.DoUndo(e, 1, p) == Reloaded(files, p, image, E.Undoing({}))
  {
    OnePage(p);
    OnePhase(E.Txn(E.Undoing({p}), Ops(p, image), {p}), E.Txn(E.Undoing({}), Ops(p, image), {p}));
    assert (map[p := image])[p := ZeroPage()] == map[p := ZeroPage()];
  }

  /** Nobody is left, and the log has an Abort record behind the Commit record. */
  function Gone(files: Disk, p: PageKey, image: Image): E.State {
    E.State(files, files[p := ZeroPage()], {}, map[p := ZeroPage()], {}, Four(p, image), 0, map[], map[], map[], 2,
            FirstDone(p, image), {})
  }

  function Four(p: PageKey, image: Image): seq<Record> {
    [Begin(1), Update(1, p, image), Commit(1), Abort(1)]
  }

  function Six(p: PageKey, image: Image): seq<Record> {
    [Begin(1), Update(1, p, image), Commit(1), Abort(1), Begin(2), Commit(2)]
  }

  lemma NobodyHolds(p: PageKey, t: TxnId, e: LockEntry)
    requires e == LockEntry({}, Some(t)) || e == LockEntry({t}, None)
    ensures Released(map[p := e], t) == map[] && HoldsAny(map[p := e], t)
  {
    assert Holders(WithoutTxn(e, t)) == {};
    assert t in Holders((map[p := e])[p]);
  }

  lemma AbortEnds(files: Disk, p: PageKey, image: Image)
    ensures var e := Reloaded(files, p, image, E.Undoing({}));
            E.Enabled(e, E.LAbortEnd(1)) && E.Do(e, E.LAbortEnd(1)) == Gone(files, p, image)
  {
    NobodyHolds(p, 1, LockEntry({}, Some(1)));
    assert Committing(p, image) + [Abort(1)] == Four(p, image);
    assert (map[1 := E.Txn(E.Undoing({}), Ops(p, image), {p})]) - {1} == map[];
  }

  function Reader1(files: Disk, p: PageKey, image: Image, locks: LockTable, x: E.Txn): E.State {
    Reading(files, p, image, locks, x, Four(p, image) + [Begin(2)], 0, FirstDone(p, image))
  }

  function Shares(p: PageKey): LockTable {
    map[p := LockEntry({2}, None)]
  }

  lemma Begun(files: Disk, p: PageKey, image: Image)
    ensures var e := Gone(files, p, image);
            E.DoBegin(e) == Reader1(files, p, image, map[], E.Txn(E.Running, [], {}))
  {
  }

  lemma Locked(files: Disk, p: PageKey, image: Image)
    ensures var e := Reader1(files, p, image, map[], E.Txn(E.Running, [], {}));
            E.Enabled(e, E.LAcquire(2, p, Shared))
            && E.DoAcquire(e, 2, p, Shared) == Reader1(files, p, image, Shares(p), E.Txn(E.Running, [], {}))
  {
    assert {} + {2} == {2};
  }

  lemma TwoPhase(x: E.Txn, y: E.Txn)
    ensures (map[2 := x])[2 := y] == map[2 := y]
  {
  }

  function ReadOps(p: PageKey): seq<Op> {
    [Read(p, ZeroPage())]
  }

  lemma ReadIt(files: Disk, p: PageKey, image: Image)
    ensures var e := Reader1(files, p, image, Shares(p), E.Txn(E.Running, [], {}));
            E.Enabled(e, E.LRead(2, p))
            && E.DoRead(e, 2, p) == Reader1(files, p, image, Shares(p), E.Txn(E.Running, ReadOps(p), {}))
  {
    TwoPhase(E.Txn(E.Running, [], {}), E.Txn(E.Running, ReadOps(p), {}));
    assert [] + [Read(p, ZeroPage())] == ReadOps(p);
    assert (map[p := ZeroPage()])[p := ZeroPage()] == map[p := ZeroPage()];
  }

  function BothDone(p: PageKey, image: Image): seq<Done> {
    [Done(1, Ops(p, image)), Done(2, ReadOps(p))]
  }

  function Reader2(files: Disk, p: PageKey, image: Image, phase: E.Phase, synced: nat): E.State {
    Reading(files, p, image, Shares(p), E.Txn(phase, ReadOps(p), {}), Six(p, image), synced, BothDone(p, image))
  }

  lemma ReaderLogs(files: Disk, p: PageKey, image: Image)
    ensures var e := Reader1(files, p, image, Shares(p), E.Txn(E.Running, ReadOps(p), {}));
            && E.Enabled(e, E.LCommitStart(2))
            && var f := E.SetPhase(e, 2, E.Logging({}));
               E.Enabled(f, E.LLogCommit(2)) && E.DoLogCommit(f, 2) == Reader2(files, p, image, E.Syncing(5), 0)
  {
    TwoPhase(E.Txn(E.Running, ReadOps(p), {}), E.Txn(E.Logging({}), ReadOps(p), {}));
    TwoPhase(E.Txn(E.Logging({}), ReadOps(p), {}), E.Txn(E.Syncing(5), ReadOps(p), {}));
    assert Four(p, image) + [Begin(2)] + [Commit(2)] == Six(p, image);
    assert FirstDone(p, image) + [Done(2, ReadOps(p))] == BothDone(p, image);
  }

  function Final(files: Disk, p: PageKey, image: Image): E.State {
    E.State(files, files[p := ZeroPage()], {}, map[p := ZeroPage()], {}, Six(p, image), 6, map[], map[], map[], 3,
            BothDone(p, image), {2})
  }

  lemma ReaderReturns(files: Disk, p: PageKey, image: Image)
    ensures var e := Reader2(files, p, image, E.Syncing(5), 6);
            && E.SetPhase(e, 2, E.Forcing(5, {})) == Reader2(files, p, image, E.Forcing(5, {}), 6)
            && var f := Reader2(files, p, image, E.Forcing(5, {}), 6);
               E.Enabled(f, E.LCommitEnd(2)) && E.Do(f, E.LCommitEnd(2)) == Final(files, p, image)
  {
    TwoPhase(E.Txn(E.Syncing(5), ReadOps(p), {}), E.Txn(E.Forcing(5, {}), ReadOps(p), {}));
    NobodyHolds(p, 2, LockEntry({2}, None));
    assert (map[2 := E.Txn(E.Forcing(5, {}), ReadOps(p), {})]) - {2} == map[];
    assert {} + {2} == {2};
  }

  // ----- the flush protocol's states

  function Flushing(appended: nat, x: G.Phase, on: bool): G.State {
    G.State(appended, 0, 0, on, map[1 := x])
  }

  lemma FlushFails()
    ensures G.Step(G.State(3, 0, 0, false, map[]), G.Call(1, 3)) == Flushing(3, G.Checking(3), false)
    ensures G.Step(Flushing(3, G.Checking(3), false), G.Check(1)) == Flushing(3, G.Syncing(3, 3), true)
    ensures G.Step(Flushing(3, G.Syncing(3, 3), true), G.FsyncFails(1)) == Flushing(3, G.Synced(3, 3, false), true)
    ensures G.Step(Flushing(3, G.Synced(3, 3, false), true), G.Finish(1)) == Flushing(3, G.Failed(3), false)
    ensures G.Step(Flushing(3, G.Failed(3), false), G.Leave(1)) == Flushing(3, G.Idle, false)
  {
    assert G.WakeAll(map[1 := G.Synced(3, 3, false)]) == map[1 := G.Synced(3, 3, false)];
  }

  function Second(synced: nat, durable: nat, x: G.Phase, on: bool): G.State {
    G.State(6, synced, durable, on, map[1 := G.Idle, 2 := x])
  }

  lemma FlushStarts()
    ensures G.Step(Flushing(6, G.Idle, false), G.Call(2, 6)) == Second(0, 0, G.Checking(6), false)
    ensures G.Step(Second(0, 0, G.Checking(6), false), G.Check(2)) == Second(0, 0, G.Syncing(6, 6), true)
    ensures G.Step(Second(0, 0, G.Syncing(6, 6), true), G.FsyncOk(2, 6)) == Second(6, 0, G.Synced(6, 6, true), true)
  {
  }

  lemma FlushWorks()
    ensures G.Step(Second(6, 0, G.Synced(6, 6, true), true), G.Finish(2)) == Second(6, 6, G.Checking(6), false)
    ensures G.Step(Second(6, 6, G.Checking(6), false), G.Check(2)) == Second(6, 6, G.Returned(6), false)
    ensures G.Step(Second(6, 6, G.Returned(6), false), G.Leave(2)) == Second(6, 6, G.Idle, false)
  {
    var t := map[1 := G.Idle, 2 := G.Synced(6, 6, true)];
    assert G.WakeAll(t) == t;
  }

  // ----- the run

  function Writes(p: PageKey, image: Image): seq<Label> {
    [] + [Act(E.LBegin)] + [Act(E.LNewPage(1, p))] + [Act(E.LWrite(1, p, image))]
  }

  function Logs(p: PageKey, image: Image): seq<Label> {
    Writes(p, image) + [Act(E.LCommitStart(1))] + [Act(E.LLogUpdate(1, p))] + [Act(E.LLogCommit(1))]
  }

  function Fails(p: PageKey, image: Image): seq<Label> {
    Logs(p, image) + [Flush(G.Call(1, 3))] + [Flush(G.Check(1))] + [Flush(G.FsyncFails(1))] + [Flush(G.Finish(1))]
  }

  function Aborts(p: PageKey, image: Image): seq<Label> {
    Fails(p, image) + [AbortFailed(1)] + [Act(E.LUndo(1, p))] + [Act(E.LAbortEnd(1))]
  }

  function Reads(p: PageKey, image: Image): seq<Label> {
    Aborts(p, image) + [Act(E.LBegin)] + [Act(E.LAcquire(2, p, Shared))] + [Act(E.LRead(2, p))]
  }

  function Commits(p: PageKey, image: Image): seq<Label> {
    Reads(p, image) + [Act(E.LCommitStart(2))] + [Act(E.LLogCommit(2))]
  }

  function Syncs(p: PageKey, image: Image): seq<Label> {
    Commits(p, image) + [Flush(G.Call(2, 6))] + [Flush(G.Check(2))] + [Flush(G.FsyncOk(2, 6))]
  }

  function Losing(p: PageKey, image: Image): seq<Label> {
    Syncs(p, image) + [Flush(G.Finish(2))] + [Flush(G.Check(2))] + [Confirm(2)] + [Act(E.LCommitEnd(2))]
  }

  function Quiet(n: nat): G.State {
    G.State(n, 0, 0, false, map[])
  }

  lemma AfterWrites(files: Disk, p: PageKey, image: Image)
    requires p !in files
    ensures Leads(Initial(files), Writes(p, image),
                  State(Working(files, p, image, E.Running, [Begin(1)], []), Quiet(1)))
  {
    var s, e := Initial(files), E.DoBegin(E.Initial(files));
    assert Leads(s, [], s);
    ThenAct(s, [], s, E.LBegin, e);
    AddedPage(files, p);
    var f := E.DoNewPage(e, 1, p);
    ThenAct(s, [] + [Act(E.LBegin)], State(e, Quiet(1)), E.LNewPage(1, p), f);
    Wrote(files, p, image);
    ThenAct(s, [] + [Act(E.LBegin)] + [Act(E.LNewPage(1, p))], State(f, Quiet(1)), E.LWrite(1, p, image),
            Working(files, p, image, E.Running, [Begin(1)], []));
  }

  lemma AfterLogs(files: Disk, p: PageKey, image: Image)
    requires p !in files
    ensures Leads(Initial(files), Logs(p, image),
                  State(Working(files, p, image, E.Syncing(2), Committing(p, image), FirstDone(p, image)), Quiet(3)))
  {
    AfterWrites(files, p, image);
    var s, ls, log := Initial(files), Writes(p, image), [Begin(1), Update(1, p, image)];
    var e0 := Working(files, p, image, E.Running, [Begin(1)], []);
    var e1 := Working(files, p, image, E.Logging({}), [Begin(1)], []);
    var e2 := Working(files, p, image, E.Logging({p}), log, []);
    OnePhase(E.Txn(E.Running, Ops(p, image), {p}), E.Txn(E.Logging({}), Ops(p, image), {p}));
    ThenAct(s, ls, State(e0, Quiet(1)), E.LCommitStart(1), e1);
    Logged(files, p, image);
    ThenAct(s, ls + [Act(E.LCommitStart(1))], State(e1, Quiet(1)), E.LLogUpdate(1, p), e2);
    LoggedCommit(files, p, image);
    ThenAct(s, ls + [Act(E.LCommitStart(1))] + [Act(E.LLogUpdate(1, p))], State(e2, Quiet(2)), E.LLogCommit(1),
            Working(files, p, image, E.Syncing(2), Committing(p, image), FirstDone(p, image)));
  }

  lemma AfterFails(files: Disk, p: PageKey, image: Image)
    requires p !in files
    ensures var e := Working(files, p, image, E.Syncing(2), Committing(p, image), FirstDone(p, image));
            Leads(Initial(files), Fails(p, image), State(e, Flushing(3, G.Failed(3), false)))
  {
    AfterLogs(files, p, image);
    FlushFails();
    var s, ls := Initial(files), Logs(p, image);
    var e := Working(files, p, image, E.Syncing(2), Committing(p, image), FirstDone(p, image));
    var f1, f2 := Flushing(3, G.Checking(3), false), Flushing(3, G.Syncing(3, 3), true);
    var f3, f4 := Flushing(3, G.Synced(3, 3, false), true), Flushing(3, G.Failed(3), false);
    Then(s, ls, State(e, Quiet(3)), Flush(G.Call(1, 3)), State(e, f1));
    var ls1 := ls + [Flush(G.Call(1, 3))];
    Then(s, ls1, State(e, f1), Flush(G.Check(1)), State(e, f2));
    var ls2 := ls1 + [Flush(G.Check(1))];
    Then(s, ls2, State(e, f2), Flush(G.FsyncFails(1)), State(e, f3));
    Then(s, ls2 + [Flush(G.FsyncFails(1))], State(e, f3), Flush(G.Finish(1)), State(e, f4));
  }

  lemma AfterAborts(files: Disk, p: PageKey, image: Image)
    requires p !in files
    ensures Leads(Initial(files), Aborts(p, image), State(Gone(files, p, image), Flushing(4, G.Idle, false)))
  {
    AfterFails(files, p, image);
    FlushFails();
    var s, ls := Initial(files), Fails(p, image);
    var e0 := Working(files, p, image, E.Syncing(2), Committing(p, image), FirstDone(p, image));
    var e1 := Working(files, p, image, E.Undoing({p}), Committing(p, image), FirstDone(p, image));
    var e2 := Reloaded(files, p, image, E.Undoing({}));
    OnePhase(E.Txn(E.Syncing(2), Ops(p, image), {p}), E.Txn(E.Undoing({p}), Ops(p, image), {p}));
    Then(s, ls, State(e0, Flushing(3, G.Failed(3), false)), AbortFailed(1), State(e1, Flushing(3, G.Idle, false)));
    Undone(files, p, image);
    ThenAct(s, ls + [AbortFailed(1)], State(e1, Flushing(3, G.Idle, false)), E.LUndo(1, p), e2);
    AbortEnds(files, p, image);
    ThenAct(s, ls + [AbortFailed(1)] + [Act(E.LUndo(1, p))], State(e2, Flushing(3, G.Idle, false)), E.LAbortEnd(1),
            Gone(files, p, image));
  }

  lemma AfterReads(files: Disk, p: PageKey, image: Image)
    requires p !in files
    ensures Leads(Initial(files), Reads(p, image),
                  State(Reader1(files, p, image, Shares(p), E.Txn(E.Running, ReadOps(p), {})),
                        Flushing(5, G.Idle, false)))
  {
    AfterAborts(files, p, image);
    var s, ls, f := Initial(files), Aborts(p, image), Flushing(5, G.Idle, false);
    var e1 := Reader1(files, p, image, map[], E.Txn(E.Running, [], {}));
    var e2 := Reader1(files, p, image, Shares(p), E.Txn(E.Running, [], {}));
    Begun(files, p, image);
    ThenAct(s, ls, State(Gone(files, p, image), Flushing(4, G.Idle, false)), E.LBegin, e1);
    Locked(files, p, image);
    ThenAct(s, ls + [Act(E.LBegin)], State(e1, f), E.LAcquire(2, p, Shared), e2);
    ReadIt(files, p, image);
    ThenAct(s, ls + [Act(E.LBegin)] + [Act(E.LAcquire(2, p, Shared))], State(e2, f), E.LRead(2, p),
            Reader1(files, p, image, Shares(p), E.Txn(E.Running, ReadOps(p), {})));
  }

  lemma AfterCommits(files: Disk, p: PageKey, image: Image)
    requires p !in files
    ensures Leads(Initial(files), Commits(p, image),
                  State(Reader2(files, p, image, E.Syncing(5), 0), Flushing(6, G.Idle, false)))
  {
    AfterReads(files, p, image);
    ReaderLogs(files, p, image);
    var s, ls, f := Initial(files), Reads(p, image), Flushing(5, G.Idle, false);
    var e := Reader1(files, p, image, Shares(p), E.Txn(E.Running, ReadOps(p), {}));
    ThenAct(s, ls, State(e, f), E.LCommitStart(2), E.SetPhase(e, 2, E.Logging({})));
    ThenAct(s, ls + [Act(E.LCommitStart(2))], State(E.SetPhase(e, 2, E.Logging({})), f), E.LLogCommit(2),
            Reader2(files, p, image, E.Syncing(5), 0));
  }

  lemma AfterSyncs(files: Disk, p: PageKey, image: Image)
    requires p !in files
    ensures Leads(Initial(files), Syncs(p, image),
                  State(Reader2(files, p, image, E.Syncing(5), 6), Second(6, 0, G.Synced(6, 6, true), true)))
  {
    AfterCommits(files, p, image);
    FlushStarts();
    var s, ls, e := Initial(files), Commits(p, image), Reader2(files, p, image, E.Syncing(5), 0);
    var f1, f2 := Second(0, 0, G.Checking(6), false), Second(0, 0, G.Syncing(6, 6), true);
    Then(s, ls, State(e, Flushing(6, G.Idle, false)), Flush(G.Call(2, 6)), State(e, f1));
    Then(s, ls + [Flush(G.Call(2, 6))], State(e, f1), Flush(G.Check(2)), State(e, f2));
    Then(s, ls + [Flush(G.Call(2, 6))] + [Flush(G.Check(2))], State(e, f2), Flush(G.FsyncOk(2, 6)),
         State(Reader2(files, p, image, E.Syncing(5), 6), Second(6, 0, G.Synced(6, 6, true), true)));
  }

  lemma AfterLosing(files: Disk, p: PageKey, image: Image)
    requires p !in files
    ensures Leads(Initial(files), Losing(p, image), State(Final(files, p, image), Second(6, 6, G.Idle, false)))
  {
    AfterSyncs(files, p, image);
    FlushWorks();
    ReaderReturns(files, p, image);
    var s, ls, e := Initial(files), Syncs(p, image), Reader2(files, p, image, E.Syncing(5), 6);
    var f0, f1 := Second(6, 0, G.Synced(6, 6, true), true), Second(6, 6, G.Checking(6), false);
    var f2, e1 := Second(6, 6, G.Returned(6), false), Reader2(files, p, image, E.Forcing(5, {}), 6);
    Then(s, ls, State(e, f0), Flush(G.Finish(2)), State(e, f1));
    var ls1 := ls + [Flush(G.Finish(2))];
    Then(s, ls1, State(e, f1), Flush(G.Check(2)), State(e, f2));
    var ls2 := ls1 + [Flush(G.Check(2))];
    Then(s, ls2, State(e, f2), Confirm(2), State(e1, Second(6, 6, G.Idle, false)));
    ThenAct(s, ls2 + [Confirm(2)], State(e1, Second(6, 6, G.Idle, false)), E.LCommitEnd(2), Final(files, p, image));
  }

  lemma SixRecovered(disk: Disk, p: PageKey, image: Image)
    ensures CommitSet(Six(p, image)) == {1, 2} && Lookup(Recovered(disk, Six(p, image)), p) == image
  {
    var l0, l1, l2 := [], [Begin(1)], [Begin(1), Update(1, p, image)];
    var l3, l4 := Committing(p, image), Four(p, image);
    var l5, l6 := Four(p, image) + [Begin(2)], Six(p, image);
    assert l1 == l0 + [Begin(1)] && l2 == l1 + [Update(1, p, image)] && l3 == l2 + [Commit(1)];
    assert l4 == l3 + [Abort(1)] && l6 == l5 + [Commit(2)];
    CommitSetSnoc(l0, Begin(1));
    CommitSetSnoc(l1, Update(1, p, image));
    CommitSetSnoc(l2, Commit(1));
    CommitSetSnoc(l3, Abort(1));
    CommitSetSnoc(l4, Begin(2));
    CommitSetSnoc(l5, Commit(2));
    RedoSnoc(disk, l1, {1, 2}, Update(1, p, image));
    RedoSnoc(disk, l2, {1, 2}, Commit(1));
    RedoSnoc(disk, l3, {1, 2}, Abort(1));
    RedoSnoc(disk, l4, {1, 2}, Begin(2));
    RedoSnoc(disk, l5, {1, 2}, Commit(2));
  }

  /**
   Transaction 1 was aborted and is gone, only transaction 2's commit has returned, and 2 read the page as it was.
   Yet every crash from here is recovered to the page as 1 had changed it.
   */
  lemma AbortedChangeComesBack(files: Disk, p: PageKey, image: Image, kept: nat, disk: Disk)
    requires p !in files
    ensures IsRun(Initial(files), Losing(p, image))
    ensures var s := After(Initial(files), Losing(p, image)).engine;
            && s.txns == map[] && s.returned == {2} && E.View(s, p) == ZeroPage()
            && s.log == [Begin(1), Update(1, p, image), Commit(1), Abort(1), Begin(2), Commit(2)]
            && Done(2, [Read(p, ZeroPage())]) in s.history
            && (T.CrashLeaves(s, kept, disk) ==> Lookup(Recovered(disk, s.log[..kept]), p) == image)
  {
    AfterLosing(files, p, image);
    var s := After(Initial(files), Losing(p, image)).engine;
    assert s.history[1] == Done(2, [Read(p, ZeroPage())]);
    if T.CrashLeaves(s, kept, disk) {
      assert s.log[..kept] == Six(p, image);
      SixRecovered(disk, p, image);
    }
  }
}
