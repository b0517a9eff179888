/**
 An index file as the engine keeps it: each node an image on the page of its number (src/index/btree.cpp:141-237,
     311-376).
 What the file holds, read back, is the tree; so after a crash it is the tree that the surviving transactions left.
 */
module IndexFile {
  import opened Wrappers
  import opened Bytes
  import opened TreeShape
  import opened NodeCodec
  import opened Locks
  import opened Serial
  import opened Recovery
  import TreeLaws
  import TreeInsert
  import BTree
  import E = Engine
  import T = EngineTheorems

  /** A node within its capacity and with keys and addresses in the range of their fields. */
  ghost predicate Fits(n: Node) {
    match n
    case Blank => true
    case Header(_) => true
    case Leaf(_, entries) => |entries| <= LEAF_MAX && forall i :: 0 <= i < |entries| ==> EntryOk(entries[i])
    case Internal(keys, children) =>
      |keys| <= INTERNAL_MAX && |children| == |keys| + 1 && forall i :: 0 <= i < |keys| ==> InInt64(keys[i])
  }

  ghost function ImageOf(pid: PageId, n: Node): seq<byte>
    requires Fits(n)
  {
    match n
    case Blank => ZeroPage()
    case Header(root) => HeaderImage(root)
    case Leaf(next, entries) => LeafFits(entries); LeafImage(pid, next, entries)
    case Internal(keys, children) => InternalFits(keys, children); InternalImage(pid, keys, children)
  }

  /** What the index makes of a page of its file. Page 0 is the header. */
  function NodeOf(pid: PageId, d: seq<byte>): Node {
    if |d| != PAGE_SIZE then Blank
    else if pid == 0 then Header(PageIdAt(d[16..20]))
    else match NodeAt(d) { case Some(n) => n case None => Blank }
  }

  lemma ZeroIsBlank()
    ensures NodeAt(ZeroPage()) == None
  {
    var d := ZeroPage()[4..6];
    assert d[0] == 0 && d[1] == 0 && d[1..][1..] == [];
    assert FromLE(d[1..]) == 0;
  }

  lemma NodeRoundTrip(pid: PageId, n: Node)
    requires Fits(n) && (n.Header? <==> pid == 0)
    ensures NodeOf(pid, ImageOf(pid, n)) == n
  {
    match n
    case Blank => ZeroIsBlank();
    case Header(root) => RootRoundTrip(root);
    case Leaf(next, entries) => LeafRoundTrip(pid, next, entries);
    case Internal(keys, children) => InternalRoundTrip(pid, keys, children);
  }

  /** The pages of object `o` hold these nodes. */
  ghost predicate OnDisk(d: Disk, o: nat, pages: Pages) {
    forall pid :: pid in pages ==> HasNode(d, o, pid, pages[pid])
  }

  ghost predicate HasNode(d: Disk, o: nat, pid: PageId, n: Node) {
    (n.Header? <==> pid == 0) && Fits(n) && Lookup(d, PageKey(o, pid as nat)) == ImageOf(pid, n)
  }

  /** What is known of an index file's pages: they hold this tree. */
  ghost predicate Holds(pages: Pages, next: PageId, held: Option<Tree>, levels: nat) {
    && 0 in pages && pages[0].Header? && 1 <= next <= INVALID_PAGE_ID
    && match held
       case None => pages[0].root == INVALID_PAGE_ID && levels == 0
       case Some(t) => pages[0].root == t.pid && Forest(pages, [t], levels, INVALID_PAGE_ID, next)
                       && Routed(t, NegInf, PosInf) && TreeInsert.Size(t) >= 1
  }

  /** The tree a valid index object stands for is what its pages hold. */
  lemma ValidHolds(b: BTree.BPlusTree)
    requires b.Valid()
    ensures Holds(b.pages, b.nextPageId, b.tree, b.height)
  {
  }

  /** Reading more pages changes nothing of the tree. */
  lemma HoldsMore(pages: Pages, stored: Pages, next: PageId, held: Option<Tree>, levels: nat)
    requires Holds(pages, next, held, levels) && Frame(pages, stored, {}, next)
    ensures Holds(stored, next, held, levels)
  {
    if held.Some? { TreeLaws.ForestFrame(pages, stored, [held.value], levels, INVALID_PAGE_ID, next, {}, next); }
  }

  /** Opening an index file gives the tree that was written to it. */
  method OpenIndex(d: Disk, o: nat, next: PageId, ghost pages: Pages, ghost held: Option<Tree>, ghost levels: nat)
    returns (b: BTree.BPlusTree)
    requires OnDisk(d, o, pages) && Holds(pages, next, held, levels)
    ensures fresh(b) && b.Valid() && b.nextPageId == next && Frame(pages, b.pages, {}, next)
    ensures b.Contents() == match held { case None => [] case Some(t) => Flat(t) }
  {
    var stored: Pages := map[];
    var pid: PageId := 0;
    while pid < next
      invariant 0 <= pid <= next
      invariant forall p :: 0 <= p < pid ==> p in stored && stored[p] == NodeOf(p, Lookup(d, PageKey(o, p as nat)))
    {
      stored := stored[pid := NodeOf(pid, Lookup(d, PageKey(o, pid as nat)))];
      pid := pid + 1;
    }
    forall p | p in pages && p < next ensures p in stored && stored[p] == pages[p] {
      assert HasNode(d, o, p, pages[p]);
      NodeRoundTrip(p, pages[p]);
    }
    HoldsMore(pages, stored, next, held, levels);
    b := new BTree.BPlusTree.Open(stored, next, held, levels);
  }

  /** What a valid index object has in its file is opened again as the same index. */
  method ReopenIndex(b: BTree.BPlusTree, d: Disk, o: nat) returns (again: BTree.BPlusTree)
    requires b.Valid() && OnDisk(d, o, b.pages)
    ensures fresh(again) && again.Valid() && again.Contents() == b.Contents() && again.nextPageId == b.nextPageId
  {
    ValidHolds(b);
    again := OpenIndex(d, o, b.nextPageId, b.pages, b.tree, b.height);
  }

  /**
   Crash at any point of any run of the engine: if the transactions whose Commit record survived left a valid index in
   object `o`, then the recovered files hold that index, and opening it gives a valid tree with the same contents.
   */
  method OpenAfterCrash(ghost files: Disk, ghost labels: seq<E.Label>, ghost kept: nat, ghost disk: Disk,
                        recovered: Disk, o: nat, next: PageId, ghost pages: Pages, ghost held: Option<Tree>,
                        ghost levels: nat)
    returns (b: BTree.BPlusTree)
    requires E.IsRun(E.Initial(files), labels) && T.CrashLeaves(E.After(E.Initial(files), labels), kept, disk)
    requires recovered == Recovered(disk, E.After(E.Initial(files), labels).log[..kept])
    requires Holds(pages, next, held, levels)
    requires var s := E.After(E.Initial(files), labels);
             T.Survivors(s, kept) <= |s.history| && OnDisk(ExecAll(files, s.history[..T.Survivors(s, kept)]), o, pages)
    ensures fresh(b) && b.Valid() && b.nextPageId == next
    ensures b.Contents() == match held { case None => [] case Some(t) => Flat(t) }
  {
    RecoveredOnDisk(files, labels, kept, disk, o, pages);
    b := OpenIndex(recovered, o, next, pages, held, levels);
  }

  lemma RecoveredOnDisk(files: Disk, labels: seq<E.Label>, kept: nat, disk: Disk, o: nat, pages: Pages)
    requires E.IsRun(E.Initial(files), labels) && T.CrashLeaves(E.After(E.Initial(files), labels), kept, disk)
    requires var s := E.After(E.Initial(files), labels);
             T.Survivors(s, kept) <= |s.history| && OnDisk(ExecAll(files, s.history[..T.Survivors(s, kept)]), o, pages)
    ensures OnDisk(Recovered(disk, E.After(E.Initial(files), labels).log[..kept]), o, pages)
  {
    T.RecoveryIsExact(files, labels, kept, disk);
    var s := E.After(E.Initial(files), labels);
    forall pid | pid in pages ensures HasNode(Recovered(disk, s.log[..kept]), o, pid, pages[pid]) {
      assert HasNode(ExecAll(files, s.history[..T.Survivors(s, kept)]), o, pid, pages[pid]);
    }
  }
}
