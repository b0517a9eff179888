/** Page-level transactions as sequences of reads and writes, and their serial execution. */
module Serial {
  import opened Bytes
  import opened Locks

  /** The contents of one page. */
  type Image = seq<byte>

  function ZeroPage(): (z: Image)
    ensures |z| == PAGE_SIZE && forall i :: 0 <= i < PAGE_SIZE ==> z[i] == 0
  {
    seq(PAGE_SIZE, _ => 0)
  }

  /** Page contents other than zeros. */
  function Ones(): (z: Image)
    ensures |z| == PAGE_SIZE && z != ZeroPage()
  {
    var z: Image := seq(PAGE_SIZE, _ => 1);
    assert z[0] != ZeroPage()[0];
    z
  }

  /** Page contents; a page nobody wrote is zero-filled. */
  type Disk = map<PageKey, Image>

  function Lookup(d: Disk, p: PageKey): Image {
    if p in d then d[p] else ZeroPage()
  }

  /** The cache with the pages in `ps` reloaded. */
  function Discarded(cache: Disk, files: Disk, ps: set<PageKey>): Disk {
    map p | p in cache :: if p in ps then Lookup(files, p) else cache[p]
  }

  lemma DiscardedStep(cache: Disk, files: Disk, ps: set<PageKey>, p: PageKey)
    requires p in cache
    ensures Discarded(cache, files, ps + {p}) == Discarded(cache, files, ps)[p := Lookup(files, p)]
  {
  }

  datatype Op = Read(key: PageKey, image: Image) | Write(key: PageKey, image: Image)

  function Exec(d: Disk, ops: seq<Op>): Disk {
    if ops == [] then d
    else
      var d1 := Exec(d, ops[..|ops| - 1]);
      var op := ops[|ops| - 1];
      if op.Write? then d1[op.key := op.image] else d1
  }

  /** Run alone from `d`, the transaction reads exactly what it recorded. */
  ghost predicate Replays(d: Disk, ops: seq<Op>) {
    ops == [] || (
      var last := ops[|ops| - 1];
      && Replays(d, ops[..|ops| - 1])
      && (last.Read? ==> Lookup(Exec(d, ops[..|ops| - 1]), last.key) == last.image))
  }

  function Written(ops: seq<Op>): set<PageKey> {
    if ops == [] then {}
    else Written(ops[..|ops| - 1]) + if ops[|ops| - 1].Write? then {ops[|ops| - 1].key} else {}
  }

  ghost predicate Touches(ops: seq<Op>, p: PageKey) {
    exists i :: 0 <= i < |ops| && ops[i].key == p
  }

  lemma OpsSnoc(d: Disk, ops: seq<Op>, op: Op)
    ensures Exec(d, ops + [op]) == if op.Write? then Exec(d, ops)[op.key := op.image] else Exec(d, ops)
    ensures Replays(d, ops + [op]) <==> Replays(d, ops) && (op.Read? ==> Lookup(Exec(d, ops), op.key) == op.image)
    ensures Written(ops + [op]) == Written(ops) + if op.Write? then {op.key} else {}
  {
    assert (ops + [op])[..|ops|] == ops;
  }

  /** Pages a transaction does not write keep their contents. */
  lemma {:induction false} ExecFrame(d: Disk, ops: seq<Op>, p: PageKey)
    requires p !in Written(ops)
    ensures Lookup(Exec(d, ops), p) == Lookup(d, p)
  {
    if ops != [] {
      ExecFrame(d, ops[..|ops| - 1], p);
    }
  }

  /** Only the pages a transaction touches matter to it. */
  lemma {:induction false} ExecLocal(d: Disk, e: Disk, ops: seq<Op>)
    requires forall i :: 0 <= i < |ops| ==> Lookup(d, ops[i].key) == Lookup(e, ops[i].key)
    ensures forall i :: 0 <= i < |ops| ==> Lookup(Exec(d, ops), ops[i].key) == Lookup(Exec(e, ops), ops[i].key)
    ensures forall p :: Lookup(d, p) == Lookup(e, p) ==> Lookup(Exec(d, ops), p) == Lookup(Exec(e, ops), p)
    ensures Replays(d, ops) ==> Replays(e, ops)
  {
    if ops != [] {
      var n := |ops| - 1;
      ExecLocal(d, e, ops[..n]);
      forall i | 0 <= i < |ops|
        ensures Lookup(Exec(d, ops), ops[i].key) == Lookup(Exec(e, ops), ops[i].key)
      {
        if i < n { assert ops[i] == ops[..n][i]; }
      }
    }
  }

  lemma {:induction false} WrittenTouched(ops: seq<Op>, p: PageKey)
    ensures p in Written(ops) <==> exists i :: 0 <= i < |ops| && ops[i].Write? && ops[i].key == p
  {
    if ops != [] {
      var n := |ops| - 1;
      WrittenTouched(ops[..n], p);
      if p in Written(ops[..n]) {
        var i :| 0 <= i < n && ops[..n][i].Write? && ops[..n][i].key == p;
        assert ops[i].Write? && ops[i].key == p;
      }
      if i :| 0 <= i < |ops| && ops[i].Write? && ops[i].key == p {
        if i < n { assert ops[..n][i] == ops[i]; }
      }
    }
  }

  // ----- serial histories

  datatype Done = Done(txn: TxnId, ops: seq<Op>)

  function ExecAll(d: Disk, history: seq<Done>): Disk {
    if history == [] then d else Exec(ExecAll(d, history[..|history| - 1]), history[|history| - 1].ops)
  }

  /** Executed one after the other, every transaction reads what it read in the concurrent run. */
  ghost predicate Serializable(d: Disk, history: seq<Done>) {
    forall i :: 0 <= i < |history| ==> Replays(ExecAll(d, history[..i]), history[i].ops)
  }

  lemma HistorySnoc(d: Disk, history: seq<Done>, x: Done)
    ensures ExecAll(d, history + [x]) == Exec(ExecAll(d, history), x.ops)
    ensures Serializable(d, history) && Replays(ExecAll(d, history), x.ops) ==> Serializable(d, history + [x])
  {
    assert (history + [x])[..|history|] == history;
    if Serializable(d, history) && Replays(ExecAll(d, history), x.ops) {
      forall i | 0 <= i < |history| + 1
        ensures Replays(ExecAll(d, (history + [x])[..i]), (history + [x])[i].ops)
      {
        assert (history + [x])[..i] == if i == |history| then history else history[..i];
      }
    }
  }
}
