/**
 The B+-tree over a page store (src/index/btree.cpp). Pages are rewritten in
 place; `tree` and `height` are the ghost view that Valid() ties to them.
 */
module BTree {
  import opened Wrappers
  import opened Entries
  import opened TreeShape
  import opened TreeLaws
  import opened SplitSearch
  import opened TreeInsert
  import opened TreeDelete

  const ROOT_HEADER_PAGE_ID: PageId := 0
  const MAX_TRAVERSAL_STEPS: nat := 10000

  datatype TraversalError = StepsExceeded

  class BPlusTree {
    var pages: Pages
    var nextPageId: PageId
    ghost var tree: Option<Tree>
    ghost var height: nat

    /** The pages hold a tree of uniform depth whose leaves are chained in order. */
    ghost predicate Structured()
      reads this
    {
      && ROOT_HEADER_PAGE_ID in pages && pages[ROOT_HEADER_PAGE_ID].Header?
      && 1 <= nextPageId <= INVALID_PAGE_ID
      && match tree
         case None => pages[0].root == INVALID_PAGE_ID && height == 0
         case Some(t) => pages[0].root == t.pid && Forest(pages, [t], height, INVALID_PAGE_ID, nextPageId)
    }

    /** Strict routing, sorted nodes, separators strictly increasing, no empty leaf, fill of inner nodes. */
    ghost predicate WellRouted()
      reads this
    {
      tree.Some? ==> Routed(tree.value, NegInf, PosInf) && Size(tree.value) >= 1
    }

    ghost predicate Valid()
      reads this
    {
      Structured() && WellRouted()
    }

    ghost function Contents(): (s: seq<Entry>)
      reads this
    {
      if tree.None? then [] else Flat(tree.value)
    }

    /** A fresh index file: page 0 is the header of an empty tree. */
    constructor ()
      ensures Valid() && Contents() == [] && nextPageId == 1
    {
      pages := map[ROOT_HEADER_PAGE_ID := Header(INVALID_PAGE_ID)];
      nextPageId := 1;
      tree := None;
      height := 0;
    }

    /** An index file that is there already: nothing is read until it is needed. */
    constructor Open(stored: Pages, next: PageId, ghost held: Option<Tree>, ghost levels: nat)
      requires ROOT_HEADER_PAGE_ID in stored && stored[ROOT_HEADER_PAGE_ID].Header? && 1 <= next <= INVALID_PAGE_ID
      requires match held
               case None => stored[0].root == INVALID_PAGE_ID && levels == 0
               case Some(t) => stored[0].root == t.pid && Forest(stored, [t], levels, INVALID_PAGE_ID, next)
                               && Routed(t, NegInf, PosInf) && Size(t) >= 1
      ensures Valid() && pages == stored && nextPageId == next
      ensures Contents() == match held { case None => [] case Some(t) => Flat(t) }
    {
      pages, nextPageId, tree, height := stored, next, held, levels;
    }

    // ----- reading

    /** What a search sees: the RIDs under the key in the one leaf it visits. */
    ghost function Found(key: int): seq<RID>
      reads this
    {
      if tree.None? then [] else RidsUnder(Reached(tree.value, key), key)
    }

    /** On a valid tree that is everything stored under the key. */
    lemma FoundIsAll(key: int)
      requires Valid()
      ensures Found(key) == RidsUnder(Contents(), key)
    {
      if tree.Some? { ReachedIsAll(tree.value, NegInf, PosInf, key); }
    }

    /** On any tree it is at most 291 RIDs: past that, stored entries are missed. */
    lemma FoundIsBounded(key: int)
      requires Structured()
      ensures |Found(key)| <= LEAF_MAX
      ensures CountKey(Contents(), key) > LEAF_MAX ==> |Found(key)| < CountKey(Contents(), key)
    {
      if tree.Some? {
        SingleForest(pages, tree.value, height, INVALID_PAGE_ID, nextPageId);
        ReachedFits(tree.value, height, INVALID_PAGE_ID, key);
      }
    }

    /** Whatever is found is stored under the key. */
    lemma FoundIsStored(key: int, i: nat)
      requires i < |Found(key)|
      ensures Entry(key, Found(key)[i]) in Contents()
    {
      var r := Found(key)[i];
      assert r in multiset(Found(key));
      RidsUnderCounts(Reached(tree.value, key), key, r);
      assert Entry(key, r) in multiset(Reached(tree.value, key));
      ReachedIsStored(tree.value, key, Entry(key, r));
    }

    /** No valid tree holds more than 291 entries of a key. */
    lemma ValidIsCapped(key: int)
      requires Valid()
      ensures CountKey(Contents(), key) <= LEAF_MAX
    {
      FoundIsAll(key);
      FoundIsBounded(key);
    }

    /** On a valid tree, exactly the RIDs under the key. On one that has lost its routing, those in one leaf. */
    method Search(key: int) returns (r: Result<seq<RID>, TraversalError>)
      requires Structured()
      ensures r == if height <= 10000 then Ok(Found(key)) else Err(StepsExceeded)
      ensures Valid() ==> r == Ok(RidsUnder(Contents(), key))
    {
      var cur := pages[ROOT_HEADER_PAGE_ID].root;
      RootIsReal();
      if cur == INVALID_PAGE_ID { return Ok([]); }
      if Valid() {
        HeightAtMostSix(pages, tree.value, height, nextPageId);
        FoundIsAll(key);
      }
      ghost var t, h: nat, after: PageId := tree.value, height, INVALID_PAGE_ID;
      var steps := 0;
      while true
        invariant Forest(pages, [t], h, after, nextPageId) && t.pid == cur
        invariant Reached(t, key) == Reached(tree.value, key)
        invariant steps + h == height && steps <= MAX_TRAVERSAL_STEPS
        decreases h
      {
        SingleForest(pages, t, h, after, nextPageId);
        steps := steps + 1;
        if steps > MAX_TRAVERSAL_STEPS { return Err(StepsExceeded); }
        var node := pages[cur];
        if node.Leaf? {
          var results := RidsInLeaf(node.entries, key);
          return Ok(results);
        }
        var idx := UpperBound(node.keys, key);
        Descend(pages, t, h, after, nextPageId, idx);
        cur := node.children[idx];
        t, h, after := t.kids[idx], h - 1, FirstAll(t.kids[idx + 1..], after);
      }
    }

    /** A valid tree never uses INVALID_PAGE_ID as a page. */
    lemma RootIsReal()
      requires Structured()
      ensures tree.None? <==> pages[ROOT_HEADER_PAGE_ID].root == INVALID_PAGE_ID
    {
      if tree.Some? {
        SingleForest(pages, tree.value, height, INVALID_PAGE_ID, nextPageId);
      }
    }

    /** A valid tree is low, and its contents are in order. */
    lemma ValidIsLow()
      requires Valid()
      ensures height <= 6 && Sorted(Contents())
    {
      if tree.Some? {
        HeightAtMostSix(pages, tree.value, height, nextPageId);
        RoutedFlat(tree.value, NegInf, PosInf);
      }
    }

    /**
     Walks the next-leaf chain from the leftmost leaf; gives up past 10000 leaves or levels. The chain holds even when
     routing is lost.
     */
    method RangeScanAll() returns (r: Result<seq<Entry>, TraversalError>)
      requires Structured()
      ensures r == if height <= 10001 && LeafCount() <= 10000 then Ok(Contents())
                   else Err(StepsExceeded)
    {
      RootIsReal();
      var cur := pages[ROOT_HEADER_PAGE_ID].root;
      if cur == INVALID_PAGE_ID { return Ok([]); }
      assert Rep(pages, tree.value) && Shape(tree.value, height, INVALID_PAGE_ID) &&
          INVALID_PAGE_ID !in Pids(tree.value) by {
        SingleForest(pages, tree.value, height, INVALID_PAGE_ID, nextPageId);
      }
      var leftmost := LeftmostLeaf(cur);
      if leftmost.None? { return Err(StepsExceeded); }
      cur := leftmost.value;
      ghost var ls := Leaves(tree.value);
      LeavesChained(pages, tree.value, height, INVALID_PAGE_ID);
      var out := [];
      var chainSteps := 0;
      while true
        invariant ls != [] && cur == ls[0].pid
        invariant Chained(pages, ls, INVALID_PAGE_ID)
        invariant out + FlatAll(ls) == Contents()
        invariant chainSteps + |ls| == LeafCount() && chainSteps <= MAX_TRAVERSAL_STEPS
        decreases |ls|
      {
        chainSteps := chainSteps + 1;
        if chainSteps > MAX_TRAVERSAL_STEPS { return Err(StepsExceeded); }
        var leaf := pages[cur];
        out := out + leaf.entries;
        assert |ls| > 1 ==> ls[1..][0] == ls[1];
        if leaf.next == INVALID_PAGE_ID {
          assert ls[1..] == [] && FlatAll(ls) == leaf.entries;
          return Ok(out);
        }
        cur := leaf.next;
        ls := ls[1..];
      }
    }

    ghost function LeafCount(): nat
      reads this
    {
      if tree.None? then 0 else |Leaves(tree.value)|
    }

    /** The descent along the first children, with its step guard. */
    method LeftmostLeaf(root: PageId) returns (r: Option<PageId>)
      requires Structured() && tree.Some? && root == tree.value.pid
      ensures r == if height <= 10001 then Some(First(tree.value)) else None
    {
      var cur := root;
      ghost var t, h: nat, after: PageId := tree.value, height, INVALID_PAGE_ID;
      SingleForest(pages, t, h, after, nextPageId);
      var steps := 0;
      while !pages[cur].Leaf?
        invariant Rep(pages, t) && Shape(t, h, after) && t.pid == cur && First(t) == First(tree.value)
        invariant steps + h == height && h >= 1 && steps <= MAX_TRAVERSAL_STEPS
        decreases h
      {
        steps := steps + 1;
        if steps > MAX_TRAVERSAL_STEPS { return None; }
        cur := pages[cur].children[0];
        t, h, after := t.kids[0], h - 1, FirstAll(t.kids[1..], after);
      }
      return Some(cur);
    }

    /** Levels from root to leaf. */
    method Height() returns (r: Result<nat, TraversalError>)
      requires Structured()
      ensures r == if height <= 10001 then Ok(height) else Err(StepsExceeded)
    {
      RootIsReal();
      var cur := pages[ROOT_HEADER_PAGE_ID].root;
      if cur == INVALID_PAGE_ID { return Ok(0); }
      ghost var t, left: nat, after: PageId := tree.value, height, INVALID_PAGE_ID;
      SingleForest(pages, t, left, after, nextPageId);
      var h := 1;
      while !pages[cur].Leaf?
        invariant Rep(pages, t) && Shape(t, left, after) && t.pid == cur
        invariant left >= 1 && h + left == height + 1 && h <= MAX_TRAVERSAL_STEPS + 1
        decreases left
      {
        if h > MAX_TRAVERSAL_STEPS { return Err(StepsExceeded); }
        cur := pages[cur].children[0];
        t, left, after := t.kids[0], left - 1, FirstAll(t.kids[1..], after);
        h := h + 1;
      }
      return Ok(h);
    }

    // ----- inserting

    method NewPage() returns (pid: PageId)
      requires nextPageId < INVALID_PAGE_ID
      modifies `pages, `nextPageId
      ensures pid == old(nextPageId) && nextPageId == pid + 1
      ensures pages == old(pages)[pid := Blank]
    {
      pid := nextPageId;
      nextPageId := nextPageId + 1;
      pages := pages[pid := Blank];
    }

    /** Adds the entry. The contents are always right; routing survives iff the key had room for one more. */
    method Insert(key: int, rid: RID)
      requires Valid() && nextPageId as int + height + 1 <= INVALID_PAGE_ID as int
      modifies this
      ensures Structured()
      ensures Contents() == InsertSorted(old(Contents()), Entry(key, rid))
      ensures Valid() <==> CountKey(old(Contents()), key) < LEAF_MAX
      ensures nextPageId as int <= old(nextPageId as int + height) + 1 && height <= old(height) + 1
    {
      RootIsReal();
      var root := pages[ROOT_HEADER_PAGE_ID].root;
      if root == INVALID_PAGE_ID {
        RootCreated(pages, nextPageId, Entry(key, rid));
        var pid := NewPage();
        pages := pages[pid := Leaf(INVALID_PAGE_ID, [Entry(key, rid)])];
        pages := pages[ROOT_HEADER_PAGE_ID := Header(pid)];
        tree := Some(LeafT(pid, INVALID_PAGE_ID, [Entry(key, rid)]));
        height := 1;
        return;
      }
      ghost var t, pages0, n0 := tree.value, pages, nextPageId;
      assert 0 !in Pids(t) && height >= 1 by { SingleForest(pages, t, height, INVALID_PAGE_ID, n0); }
      var split;
      ghost var ts;
      split, ts := InsertRecursive(root, key, rid, t, height, INVALID_PAGE_ID, NegInf, PosInf);
      if split.None? {
        RootKept(pages0, n0, pages, nextPageId, t, Entry(key, rid), height, ts);
        tree := Some(ts[0]);
      } else {
        RootSplit(pages0, n0, pages, nextPageId, t, Entry(key, rid), height, split, ts);
        var newRoot := NewPage();
        pages := pages[newRoot := Internal([split.value.splitKey], [root, split.value.rightPid])];
        pages := pages[ROOT_HEADER_PAGE_ID := Header(newRoot)];
        tree := Some(NodeT(newRoot, [split.value.splitKey], ts));
        height := height + 1;
      }
    }

    method InsertRecursive(pid: PageId, key: int, rid: RID, ghost t: Tree, ghost h: nat, ghost after: PageId,
                           ghost lo: Bound, ghost hi: Bound)
      returns (split: Option<Split>, ghost ts: seq<Tree>)
      requires t.pid == pid && Forest(pages, [t], h, after, nextPageId)
      requires Routed(t, lo, hi) && Within(key, lo, hi)
      requires nextPageId as int + h <= INVALID_PAGE_ID as int
      modifies `pages, `nextPageId
      ensures Inserted(old(pages), old(nextPageId), pages, nextPageId, t, Entry(key, rid), h, after, lo, hi, split, ts)
      decreases h
    {
      SingleForest(pages, t, h, after, nextPageId);
      var node := pages[pid];
      if node.Leaf? {
        split, ts := InsertIntoLeaf(pid, key, rid, t, after, lo, hi);
        return;
      }
      var idx := UpperBound(node.keys, key);
      RouteTo(t.keys, t.kids, lo, hi, key, idx);
      DescendFlat(t, lo, hi, key, idx);
      Descend(pages, t, h, after, nextPageId, idx);
      ghost var pages0, n0 := pages, nextPageId;
      var childSplit;
      ghost var cts;
      childSplit, cts := InsertRecursive(node.children[idx], key, rid, t.kids[idx], h - 1,
        FirstAll(t.kids[idx + 1..], after), LoAt(t.keys, lo, idx), HiAt(t.keys, hi, idx));
      split, ts := AbsorbSplit(pid, node, idx, childSplit, pages0, n0, t, Entry(key, rid), h, after, lo, hi, cts);
    }

    method InsertIntoLeaf(pid: PageId, key: int, rid: RID, ghost t: Tree, ghost after: PageId, ghost lo: Bound,
                          ghost hi: Bound)
      returns (split: Option<Split>, ghost ts: seq<Tree>)
      requires t.pid == pid && t.LeafT? && Forest(pages, [t], 1, after, nextPageId) && |t.entries| <= LEAF_MAX
      requires pid in pages && pages[pid] == Leaf(t.next, t.entries)
      requires Routed(t, lo, hi) && Within(key, lo, hi)
      requires nextPageId < INVALID_PAGE_ID
      modifies `pages, `nextPageId
      ensures Inserted(old(pages), old(nextPageId), pages, nextPageId, t, Entry(key, rid), 1, after, lo, hi, split, ts)
    {
      var leaf := pages[pid];
      var es := WithEntry(leaf.entries, Entry(key, rid));
      if |es| <= LEAF_MAX {
        LeafKept(pages, nextPageId, t, Entry(key, rid), after, lo, hi);
        pages := pages[pid := Leaf(leaf.next, es)];
        ts := [LeafT(pid, leaf.next, es)];
        return None, ts;
      }
      var mid := FindSplitBoundary(Keys(es), |es| / 2);
      LeafSplit(pages, nextPageId, t, Entry(key, rid), after, lo, hi, mid);
      var rightPid := NewPage();
      pages := pages[pid := Leaf(rightPid, es[..mid])];
      pages := pages[rightPid := Leaf(leaf.next, es[mid..])];
      ts := [LeafT(pid, rightPid, es[..mid]), LeafT(rightPid, leaf.next, es[mid..])];
      split := Some(Split(es[mid].key, rightPid));
    }

    /** Rewrites an internal node after the insert into its child `idx`, splitting it when overfull. */
    method AbsorbSplit(pid: PageId, node: Node, idx: nat, childSplit: Option<Split>,
                       ghost pages0: Pages, ghost n0: PageId, ghost t: Tree, ghost e: Entry, ghost h: nat,
                       ghost after: PageId,
                       ghost lo: Bound, ghost hi: Bound, ghost cts: seq<Tree>)
      returns (split: Option<Split>, ghost ts: seq<Tree>)
      requires t.NodeT? && t.pid == pid && Forest(pages0, [t], h, after, n0) && h >= 2
      requires pid in pages0 && pages0[pid] == node && node.Internal?
      requires Routed(t, lo, hi) && Within(e.key, lo, hi)
      requires idx == UpperBound(node.keys, e.key) && idx < |t.kids| && idx <= |t.keys|
      requires Inserted(pages0, n0, pages, nextPageId, t.kids[idx], e, h - 1, FirstAll(t.kids[idx + 1..], after),
                        LoAt(t.keys, lo, idx), HiAt(t.keys, hi, idx), childSplit, cts)
      requires n0 as int + h <= INVALID_PAGE_ID as int
      modifies `pages, `nextPageId
      ensures Inserted(pages0, n0, pages, nextPageId, t, e, h, after, lo, hi, split, ts)
    {
      ghost var pages1, n1 := pages, nextPageId;
      ghost var kids := NewKids(t, idx, cts);
      SingleForest(pages0, t, h, after, n0);
      Absorb(pages0, n0, pages1, n1, t, e, h, after, lo, hi, idx, childSplit, cts);
      ChildrenAfterInsert(t, node, idx, childSplit, cts);
      if childSplit.None? {
        assert pages1[pid := node] == pages1;
        NodeKept(pages0, n0, pages1, n1, t, e, h, after, lo, hi, t.keys, kids, node);
        ts := [NodeT(pid, t.keys, kids)];
        return None, ts;
      }
      var keys := node.keys[..idx] + [childSplit.value.splitKey] + node.keys[idx..];
      var children := node.children[..idx + 1] + [childSplit.value.rightPid] + node.children[idx + 1..];
      assert keys == NewKeys(t, idx, childSplit);
      if |keys| <= INTERNAL_MAX {
        NodeKept(pages0, n0, pages1, n1, t, e, h, after, lo, hi, keys, kids, Internal(keys, children));
        pages := pages[pid := Internal(keys, children)];
        ts := [NodeT(pid, keys, kids)];
        return None, ts;
      }
      var mid := FindSplitBoundary(keys, |keys| / 2);
      if Fits(t, e.key) {
        RoutedBelow(keys, kids, lo, hi);
        assert Boundary(keys, |keys| / 2);
      }
      NodeSplit(pages0, n0, pages1, n1, t, e, h, after, lo, hi, keys, kids, Internal(keys, children), mid);
      var rightPid := NewPage();
      pages := pages[pid := Internal(keys[..mid], children[..mid + 1])];
      pages := pages[rightPid := Internal(keys[mid + 1..], children[mid + 1..])];
      ts := [NodeT(pid, keys[..mid], kids[..mid + 1]), NodeT(rightPid, keys[mid + 1..], kids[mid + 1..])];
      split := Some(Split(keys[mid], rightPid));
    }

    // ----- deleting

    /** Removes exactly one copy of the entry; false iff there is none. Routing survives unconditionally. */
    method Delete(key: int, rid: RID) returns (found: bool)
      requires Valid()
      modifies this
      ensures Valid()
      ensures found <==> Entry(key, rid) in old(Contents())
      ensures Contents() == RemoveFirst(old(Contents()), Entry(key, rid))
      ensures nextPageId == old(nextPageId) && height <= old(height)
    {
      RootIsReal();
      var root := pages[ROOT_HEADER_PAGE_ID].root;
      if root == INVALID_PAGE_ID { return false; }
      ghost var t, pages0 := tree.value, pages;
      assert 0 !in Pids(t) by { SingleForest(pages, t, height, INVALID_PAGE_ID, nextPageId); }
      var underflow;
      ghost var t1;
      found, underflow, t1 := DeleteRecursive(root, true, key, rid, t, height, INVALID_PAGE_ID, NegInf, PosInf);
      if !found {
        RemoveFirstAbsent(Contents(), Entry(key, rid));
        return false;
      }
      tree := Some(t1);
      SingleForest(pages, t1, height, INVALID_PAGE_ID, nextPageId);
      var rootPage := pages[root];
      if rootPage.Leaf? {
        if rootPage.entries == [] {
          pages := pages[ROOT_HEADER_PAGE_ID := Header(INVALID_PAGE_ID)];
          tree := None;
          height := 0;
        }
      } else if |rootPage.children| == 1 {
        ghost var pages1 := pages;
        ghost var kid := t1.kids[0];
        assert t1.kids == [kid];
        CollapseRoot(pages1, nextPageId, t1, height);
        pages := pages[ROOT_HEADER_PAGE_ID := Header(rootPage.children[0])];
        ForestFrame(pages1, pages, [kid], height - 1, INVALID_PAGE_ID, nextPageId, {0}, nextPageId);
        tree := Some(kid);
        height := height - 1;
      }
    }

    method DeleteRecursive(pid: PageId, isRoot: bool, key: int, rid: RID, ghost t: Tree, ghost h: nat,
                           ghost after: PageId,
                           ghost lo: Bound, ghost hi: Bound)
      returns (found: bool, underflow: bool, ghost t1: Tree)
      requires t.pid == pid && Forest(pages, [t], h, after, nextPageId)
      requires Routed(t, lo, hi) && Within(key, lo, hi) && Size(t) >= 1 && (isRoot || Full(t))
      modifies `pages
      ensures !found ==> pages == old(pages) && Entry(key, rid) !in Flat(t)
      ensures found ==> Deleted(old(pages), pages, nextPageId, t, Entry(key, rid), h, after, lo, hi, t1)
      ensures found ==> underflow == (!isRoot && Size(t1) < MinSize(t1))
      decreases h
    {
      t1 := t;
      assert Rep(pages, t) && Shape(t, h, after) by { SingleForest(pages, t, h, after, nextPageId); }
      var node := pages[pid];
      if node.Leaf? {
        var pos := FindEntry(node.entries, Entry(key, rid));
        if pos == |node.entries| { return false, false, t1; }
        LeafDeleted(pages, nextPageId, t, Entry(key, rid), after, lo, hi, pos);
        var es := node.entries[..pos] + node.entries[pos + 1..];
        pages := pages[pid := Leaf(node.next, es)];
        t1 := LeafT(pid, node.next, es);
        return true, !isRoot && |es| < LEAF_MIN, t1;
      }
      var idx := UpperBound(node.keys, key);
      RouteTo(t.keys, t.kids, lo, hi, key, idx);
      Descend(pages, t, h, after, nextPageId, idx);
      ghost var pages0 := pages;
      var childUnderflow;
      ghost var c1;
      found, childUnderflow, c1 := DeleteRecursive(node.children[idx], false, key, rid, t.kids[idx], h - 1,
        FirstAll(t.kids[idx + 1..], after), LoAt(t.keys, lo, idx), HiAt(t.keys, hi, idx));
      if !found {
        DescendFlat(t, lo, hi, key, idx);
        return false, false, t1;
      }
      t1, underflow :=
          FinishDelete(pid, isRoot, node, idx, childUnderflow, pages0, t, Entry(key, rid), h, after, lo, hi, c1);
    }

    /** The tail of DeleteRecursive on an internal node: repair the child if needed, then write the node. */
    method FinishDelete(pid: PageId, isRoot: bool, node: Node, idx: nat, childUnderflow: bool, ghost pages0: Pages,
                        ghost t: Tree, ghost e: Entry, ghost h: nat, ghost after: PageId, ghost lo: Bound,
                        ghost hi: Bound,
                        ghost c1: Tree)
      returns (ghost t1: Tree, underflow: bool)
      requires t.NodeT? && t.pid == pid && Forest(pages0, [t], h, after, nextPageId) && h >= 2
      requires Routed(t, lo, hi) && Within(e.key, lo, hi) && |t.keys| >= 1
      requires IsNode(node, t) && idx == UpperBound(node.keys, e.key) && idx < |t.kids| && |t.keys| <= INTERNAL_MAX
      requires Deleted(pages0, pages, nextPageId, t.kids[idx], e, h - 1, FirstAll(t.kids[idx + 1..], after),
                       LoAt(t.keys, lo, idx), HiAt(t.keys, hi, idx), c1)
      requires childUnderflow == (Size(c1) < MinSize(c1))
      modifies `pages
      ensures Deleted(pages0, pages, nextPageId, t, e, h, after, lo, hi, t1)
      ensures underflow == (!isRoot && Size(t1) < MinSize(t1))
    {
      ghost var kids := NewKids(t, idx, [c1]);
      Shrink(pages0, pages, nextPageId, t, e, h, after, lo, hi, idx, c1);
      var keys, children := node.keys, node.children;
      assert kids[idx] == c1 && ChildrenAre(Internal(keys, children), keys, kids);
      if childUnderflow {
        ghost var pages1 := pages;
        ghost var kids2;
        keys, children, kids2 := FixUnderflow(keys, children, idx, kids, h - 1, after, lo, hi);
        ShrinkFixed(pages0, pages1, pages, nextPageId, t, e, h, after, lo, hi, kids, keys, kids2);
        kids := kids2;
      }
      NodeDeleted(pages0, pages, nextPageId, t, e, h, after, lo, hi, keys, kids, Internal(keys, children));
      pages := pages[pid := Internal(keys, children)];
      t1 := NodeT(pid, keys, kids);
      underflow := !isRoot && |keys| < INTERNAL_MIN;
    }

    /** Refills child `idx` from a neighbour, or merges the two. */
    method FixUnderflow(keys: seq<int>, children: seq<PageId>, idx: nat, ghost kids: seq<Tree>, ghost h: nat,
                        ghost after: PageId,
                        ghost lo: Bound, ghost hi: Bound)
      returns (keys1: seq<int>, children1: seq<PageId>, ghost kids1: seq<Tree>)
      requires Forest(pages, kids, h, after, nextPageId) && RoutedAll(keys, kids, lo, hi)
      requires ChildrenAre(Internal(keys, children), keys, kids)
      requires idx < |kids| && |kids| >= 2 && FullExcept(kids, idx)
      requires Size(kids[idx]) < MinSize(kids[idx]) && (kids[idx].NodeT? ==> Size(kids[idx]) + 1 >= INTERNAL_MIN)
      modifies `pages
      ensures Fixed(old(pages), pages, nextPageId, keys, kids, h, after, lo, hi, keys1, kids1)
      ensures ChildrenAre(Internal(keys1, children1), keys1, kids1)
    {
      if idx > 0 {
        PairAt(pages, nextPageId, keys, kids, idx - 1, h, after, lo, hi);
      } else {
        PairAt(pages, nextPageId, keys, kids, idx, h, after, lo, hi);
      }
      if pages[children[idx]].Leaf? {
        if idx > 0 {
          keys1, children1, kids1 := FixLeaves(keys, children, idx - 1, true, kids, after, lo, hi);
        } else {
          keys1, children1, kids1 := FixLeaves(keys, children, idx, false, kids, after, lo, hi);
        }
        return;
      }
      if idx > 0 {
        var left := pages[children[idx - 1]];
        if |left.keys| > INTERNAL_MIN {
          keys1, children1, kids1 := BorrowLeft(keys, children, idx - 1, kids, h, after, lo, hi);
          return;
        }
      }
      if idx + 1 < |children| {
        PairAt(pages, nextPageId, keys, kids, idx, h, after, lo, hi);
        var right := pages[children[idx + 1]];
        if |right.keys| > INTERNAL_MIN {
          keys1, children1, kids1 := BorrowRight(keys, children, idx, kids, h, after, lo, hi);
          return;
        }
      }
      if idx > 0 {
        keys1, children1, kids1 := MergeInternal(keys, children, idx - 1, kids, h, after, lo, hi);
      } else {
        keys1, children1, kids1 := MergeInternal(keys, children, idx, kids, h, after, lo, hi);
      }
    }

    /** Leaves i and i+1, one of them underfull (the right one iff `rightShort`): merge, or share at a boundary. */
    method FixLeaves(keys: seq<int>, children: seq<PageId>, i: nat, rightShort: bool, ghost kids: seq<Tree>,
                     ghost after: PageId,
                     ghost lo: Bound, ghost hi: Bound)
      returns (keys1: seq<int>, children1: seq<PageId>, ghost kids1: seq<Tree>)
      requires Forest(pages, kids, 1, after, nextPageId) && RoutedAll(keys, kids, lo, hi)
      requires ChildrenAre(Internal(keys, children), keys, kids) && i + 1 < |kids|
      requires FullExcept(kids, if rightShort then i + 1 else i)
      requires Size(kids[if rightShort then i + 1 else i]) < LEAF_MIN
      modifies `pages
      ensures Fixed(old(pages), pages, nextPageId, keys, kids, 1, after, lo, hi, keys1, kids1)
      ensures ChildrenAre(Internal(keys1, children1), keys1, kids1)
    {
      ghost var pages0, aft, plo, phi :=
          pages, FirstAll(kids[i + 2..], after), LoAt(keys, lo, i), HiAt(keys, hi, i + 1);
      ghost var x, y := kids[i], kids[i + 1];
      PairAt(pages, nextPageId, keys, kids, i, 1, after, lo, hi);
      var left, right := pages[children[i]], pages[children[i + 1]];
      var es := left.entries + right.entries;
      var combined := |es|;
      if combined <= LEAF_MAX {
        MergeLeaves(pages, nextPageId, x, y, keys[i], aft, plo, phi);
        pages := pages[children[i] := Leaf(right.next, es)];
        ghost var m := [LeafT(x.pid, y.next, es)];
        Refit(pages0, pages, nextPageId, keys, kids, i, 1, after, lo, hi, [], m);
        ParentPages(keys, children, kids, i, m, []);
        keys1, children1 := keys[..i] + keys[i + 1..], children[..i + 1] + children[i + 2..];
        kids1 := kids[..i] + m + kids[i + 2..];
        return;
      }
      var at := ShareAt(es, if rightShort then combined - LEAF_MIN else LEAF_MIN, x, y, keys[i], plo, phi, aft);
      pages := pages[children[i] := Leaf(left.next, es[..at])];
      pages := pages[children[i + 1] := Leaf(right.next, es[at..])];
      ghost var m := [LeafT(x.pid, x.next, es[..at]), LeafT(y.pid, y.next, es[at..])];
      PairParts(pages0, x, y, keys[i], 1, aft, nextPageId, plo, phi);
      ShareLeaves(pages0, pages, nextPageId, x, y, keys[i], at, aft, plo, phi);
      Refit(pages0, pages, nextPageId, keys, kids, i, 1, after, lo, hi, [es[at].key], m);
      ParentPages(keys, children, kids, i, m, [es[at].key]);
      keys1, children1 := keys[i := es[at].key], children;
      kids1 := kids[..i] + m + kids[i + 2..];
    }

    method BorrowLeft(keys: seq<int>, children: seq<PageId>, i: nat, ghost kids: seq<Tree>, ghost h: nat,
                      ghost after: PageId,
                      ghost lo: Bound, ghost hi: Bound)
      returns (keys1: seq<int>, children1: seq<PageId>, ghost kids1: seq<Tree>)
      requires Forest(pages, kids, h, after, nextPageId) && RoutedAll(keys, kids, lo, hi)
      requires ChildrenAre(Internal(keys, children), keys, kids) && i + 1 < |kids| && FullExcept(kids, i + 1)
      requires kids[i].NodeT? && kids[i + 1].NodeT?
      requires |kids[i].keys| > INTERNAL_MIN && INTERNAL_MIN == |kids[i + 1].keys| + 1
      modifies `pages
      ensures Fixed(old(pages), pages, nextPageId, keys, kids, h, after, lo, hi, keys1, kids1)
      ensures ChildrenAre(Internal(keys1, children1), keys1, kids1)
    {
      ghost var pages0, aft, plo, phi :=
          pages, FirstAll(kids[i + 2..], after), LoAt(keys, lo, i), HiAt(keys, hi, i + 1);
      ghost var x, y := kids[i], kids[i + 1];
      PairAt(pages, nextPageId, keys, kids, i, h, after, lo, hi);
      var left, child := pages[children[i]], pages[children[i + 1]];
      var last := |left.keys| - 1;
      var moved, demoted, promoted := left.children[last + 1], keys[i], left.keys[last];
      BorrowFromLeft(x, y, demoted, left, child);
      pages := pages[children[i] := Internal(left.keys[..last], left.children[..last + 1])];
      pages := pages[children[i + 1] := Internal([demoted] + child.keys, [moved] + child.children)];
      keys1, children1 := keys[i := promoted], children;
      kids1 := FinishShare(keys, children, i, |x.keys| - 1, pages0, kids, h, after, lo, hi);
    }

    method BorrowRight(keys: seq<int>, children: seq<PageId>, i: nat, ghost kids: seq<Tree>, ghost h: nat,
                       ghost after: PageId,
                       ghost lo: Bound, ghost hi: Bound)
      returns (keys1: seq<int>, children1: seq<PageId>, ghost kids1: seq<Tree>)
      requires Forest(pages, kids, h, after, nextPageId) && RoutedAll(keys, kids, lo, hi)
      requires ChildrenAre(Internal(keys, children), keys, kids) && i + 1 < |kids| && FullExcept(kids, i)
      requires kids[i].NodeT? && kids[i + 1].NodeT?
      requires |kids[i + 1].keys| > INTERNAL_MIN && INTERNAL_MIN == |kids[i].keys| + 1
      modifies `pages
      ensures Fixed(old(pages), pages, nextPageId, keys, kids, h, after, lo, hi, keys1, kids1)
      ensures ChildrenAre(Internal(keys1, children1), keys1, kids1)
    {
      ghost var pages0, aft, plo, phi :=
          pages, FirstAll(kids[i + 2..], after), LoAt(keys, lo, i), HiAt(keys, hi, i + 1);
      ghost var x, y := kids[i], kids[i + 1];
      PairAt(pages, nextPageId, keys, kids, i, h, after, lo, hi);
      var child, right := pages[children[i]], pages[children[i + 1]];
      var moved, demoted, promoted := right.children[0], keys[i], right.keys[0];
      BorrowFromRight(x, y, demoted, child, right);
      pages := pages[children[i + 1] := Internal(right.keys[1..], right.children[1..])];
      pages := pages[children[i] := Internal(child.keys + [demoted], child.children + [moved])];
      keys1, children1 := keys[i := promoted], children;
      kids1 := FinishShare(keys, children, i, |x.keys| + 1, pages0, kids, h, after, lo, hi);
    }

    /** Proof step shared by the two borrows: the siblings' joined children were re-cut at `m`. */
    ghost method FinishShare(keys: seq<int>, children: seq<PageId>, i: nat, m: nat, pages0: Pages, kids: seq<Tree>,
                             h: nat, after: PageId,
                             lo: Bound, hi: Bound)
      returns (kids1: seq<Tree>)
      requires Forest(pages0, kids, h, after, nextPageId) && RoutedAll(keys, kids, lo, hi)
      requires ChildrenAre(Internal(keys, children), keys, kids) && i + 1 < |kids|
      requires (FullExcept(kids, i) || FullExcept(kids, i + 1))
      requires kids[i].NodeT? && kids[i + 1].NodeT? && |kids[i].kids| == |kids[i].keys| + 1
      requires |kids[i + 1].kids| == |kids[i + 1].keys| + 1
      requires INTERNAL_MIN <= m && INTERNAL_MIN <= |kids[i].keys| + |kids[i + 1].keys| - m
      requires |kids[i].keys| + |kids[i + 1].keys| <= INTERNAL_MAX + INTERNAL_MIN
      requires Frame(pages0, pages, {kids[i].pid, kids[i + 1].pid}, nextPageId) && kids[i].pid in pages
      requires kids[i + 1].pid in pages
      requires ChildrenAre(pages[kids[i].pid], (kids[i].keys + [keys[i]] + kids[i + 1].keys)[..m],
              (kids[i].kids + kids[i + 1].kids)[..m + 1])
      requires ChildrenAre(pages[kids[i + 1].pid], (kids[i].keys + [keys[i]] + kids[i + 1].keys)[m + 1..],
              (kids[i].kids + kids[i + 1].kids)[m + 1..])
      ensures var keys1 := keys[i := (kids[i].keys + [keys[i]] + kids[i + 1].keys)[m]];
              && Fixed(pages0, pages, nextPageId, keys, kids, h, after, lo, hi, keys1, kids1)
              && ChildrenAre(Internal(keys1, children), keys1, kids1)
    {
      var x, y, aft, plo, phi :=
          kids[i], kids[i + 1], FirstAll(kids[i + 2..], after), LoAt(keys, lo, i), HiAt(keys, hi, i + 1);
      PairAt(pages0, nextPageId, keys, kids, i, h, after, lo, hi);
      ShareNodes(pages0, pages, nextPageId, x, y, keys[i], m, h, aft, plo, phi);
      var ks, ts := x.keys + [keys[i]] + y.keys, x.kids + y.kids;
      var run := [NodeT(x.pid, ks[..m], ts[..m + 1]), NodeT(y.pid, ks[m + 1..], ts[m + 1..])];
      Refit(pages0, pages, nextPageId, keys, kids, i, h, after, lo, hi, [ks[m]], run);
      ParentPages(keys, children, kids, i, run, [ks[m]]);
      kids1 := kids[..i] + run + kids[i + 2..];
    }

    method MergeInternal(keys: seq<int>, children: seq<PageId>, i: nat, ghost kids: seq<Tree>, ghost h: nat,
                         ghost after: PageId,
                         ghost lo: Bound, ghost hi: Bound)
      returns (keys1: seq<int>, children1: seq<PageId>, ghost kids1: seq<Tree>)
      requires Forest(pages, kids, h, after, nextPageId) && RoutedAll(keys, kids, lo, hi)
      requires ChildrenAre(Internal(keys, children), keys, kids) && i + 1 < |kids|
      requires (FullExcept(kids, i) || FullExcept(kids, i + 1))
      requires kids[i].NodeT? && kids[i + 1].NodeT?
      requires INTERNAL_MIN <= |kids[i].keys| + |kids[i + 1].keys| + 1 <= INTERNAL_MAX
      modifies `pages
      ensures Fixed(old(pages), pages, nextPageId, keys, kids, h, after, lo, hi, keys1, kids1)
      ensures ChildrenAre(Internal(keys1, children1), keys1, kids1)
    {
      ghost var pages0, aft, plo, phi :=
          pages, FirstAll(kids[i + 2..], after), LoAt(keys, lo, i), HiAt(keys, hi, i + 1);
      ghost var x, y := kids[i], kids[i + 1];
      PairAt(pages, nextPageId, keys, kids, i, h, after, lo, hi);
      var left, right := pages[children[i]], pages[children[i + 1]];
      var merged := Internal(left.keys + [keys[i]] + right.keys, left.children + right.children);
      JoinPages(x, y, keys[i], left, right);
      MergeNodes(pages, nextPageId, x, y, keys[i], h, aft, plo, phi, merged);
      pages := pages[children[i] := merged];
      ghost var m := [NodeT(x.pid, x.keys + [keys[i]] + y.keys, x.kids + y.kids)];
      Refit(pages0, pages, nextPageId, keys, kids, i, h, after, lo, hi, [], m);
      ParentPages(keys, children, kids, i, m, []);
      keys1, children1 := keys[..i] + keys[i + 1..], children[..i + 1] + children[i + 2..];
      kids1 := kids[..i] + m + kids[i + 2..];
    }
  }

  /** An insert with what it costs bounded: at most seven pages and one level. */
  method InsertBounded(index: BPlusTree, e: Entry)
    requires index.Valid() && index.nextPageId as int + 7 <= INVALID_PAGE_ID as int
    modifies index
    ensures index.Structured() && index.Contents() == InsertSorted(old(index.Contents()), e)
    ensures index.Valid() <==> CountKey(old(index.Contents()), e.key) < LEAF_MAX
    ensures index.nextPageId as int <= old(index.nextPageId as int) + 7 && index.height <= 7
  {
    if index.tree.Some? { HeightAtMostSix(index.pages, index.tree.value, index.height, index.nextPageId); }
    index.Insert(e.key, e.rid);
  }

  method Perform(index: BPlusTree, op: Op) returns (done: bool)
    requires index.Valid() && (op.Add? ==> index.nextPageId as int + 7 <= INVALID_PAGE_ID as int)
    requires op.Add? ==> CountKey(index.Contents(), op.e.key) < LEAF_MAX
    modifies index
    ensures index.Valid() && index.Contents() == Apply(old(index.Contents()), op)
    ensures done == (op.Add? || op.e in old(index.Contents()))
    ensures index.nextPageId as int <= old(index.nextPageId as int) + if op.Add? then 7 else 0
  {
    if op.Add? {
      InsertBounded(index, op.e);
      done := true;
    } else {
      done := index.Delete(op.e.key, op.e.rid);
    }
  }

  method RunOne(index: BPlusTree, ops: seq<Op>, k: nat, ghost s0: seq<Entry>) returns (ok: bool)
    requires index.Valid() && k < |ops| && index.Contents() == ApplyAll(s0, ops[..k]) && Capped(s0, ops, LEAF_MAX)
    requires ops[k].Add? ==> index.nextPageId as int + 7 <= INVALID_PAGE_ID as int
    modifies index
    ensures index.Valid() && index.Contents() == ApplyAll(s0, ops[..k + 1])
    ensures ok == (ops[k].Add? || ops[k].e in ApplyAll(s0, ops[..k]))
    ensures index.nextPageId as int <= old(index.nextPageId as int) + if ops[k].Add? then 7 else 0
  {
    ApplyAllStep(s0, ops, k);
    ok := Perform(index, ops[k]);
  }

  /** How many operations may allocate pages. */
  function Adds(ops: seq<Op>): nat {
    if ops == [] then 0 else Adds(ops[..|ops| - 1]) + if ops[|ops| - 1].Add? then 1 else 0
  }

  lemma {:induction false} AddsPrefix(ops: seq<Op>, k: nat)
    requires k <= |ops|
    ensures Adds(ops[..k]) <= Adds(ops)
  {
    if k == |ops| {
      assert ops[..k] == ops;
    } else {
      AddsPrefix(ops[..|ops| - 1], k);
      assert ops[..|ops| - 1][..k] == ops[..k];
    }
  }

  lemma AddsStep(ops: seq<Op>, k: nat)
    requires k < |ops|
    ensures Adds(ops[..k + 1]) == Adds(ops[..k]) + (if ops[k].Add? then 1 else 0) && Adds(ops[..k + 1]) <= Adds(ops)
  {
    assert ops[..k + 1][..k] == ops[..k];
    AddsPrefix(ops, k + 1);
  }

  /** A delete reports true exactly when the entry was there. */
  ghost predicate Outcomes(s0: seq<Entry>, ops: seq<Op>, done: seq<bool>) {
    |done| <= |ops| && forall i :: 0 <= i < |done| ==> (done[i] <==> ops[i].Add? || ops[i].e in ApplyAll(s0, ops[..i]))
  }

  lemma OutcomesStep(s0: seq<Entry>, ops: seq<Op>, done: seq<bool>, ok: bool)
    requires Outcomes(s0, ops, done) && |done| < |ops|
    requires ok <==> ops[|done|].Add? || ops[|done|].e in ApplyAll(s0, ops[..|done|])
    ensures Outcomes(s0, ops, done + [ok])
  {
  }

  /**
   Any history of inserts and deletes that never takes a key past 291 entries keeps the tree
   valid, and its contents are the history replayed on a plain sorted list.
   */
  method Run(index: BPlusTree, ops: seq<Op>) returns (done: seq<bool>)
    requires index.Valid() && Capped(index.Contents(), ops, LEAF_MAX)
    requires index.nextPageId as int + 7 * Adds(ops) <= INVALID_PAGE_ID as int
    modifies index
    ensures index.Valid() && index.Contents() == ApplyAll(old(index.Contents()), ops)
    ensures |done| == |ops|
    ensures Outcomes(old(index.Contents()), ops, done)
  {
    done := [];
    ghost var s0, n0 := index.Contents(), index.nextPageId;
    var k := 0;
    while k < |ops|
      invariant 0 <= k <= |ops| && |done| == k
      invariant index.Valid() && index.Contents() == ApplyAll(s0, ops[..k])
      invariant index.nextPageId as int <= n0 as int + 7 * Adds(ops[..k])
      invariant Outcomes(s0, ops, done)
    {
      AddsStep(ops, k);
      var ok := RunOne(index, ops, k, s0);
      OutcomesStep(s0, ops, done, ok);
      done := done + [ok];
      k := k + 1;
    }
    assert ops[..k] == ops;
  }

  /**
   An insert history past the cap, and what a search then sees: 292 entries under one key go in, all of
   them are stored, the tree has lost its routing, and at most 291 are found.
   */
  method Overfill(k: int) returns (index: BPlusTree, r: Result<seq<RID>, TraversalError>)
    ensures fresh(index) && index.Structured() && !index.Valid() && CountKey(index.Contents(), k) == LEAF_MAX + 1
    ensures r.Err? || |r.value| < CountKey(index.Contents(), k)
  {
    index := new BPlusTree();
    var i := 0;
    while i < LEAF_MAX
      invariant 0 <= i <= LEAF_MAX && fresh(index) && index.Valid() && CountKey(index.Contents(), k) == i
      invariant index.nextPageId as int <= 1 + 7 * i
    {
      SearchAfterInsertCount(index, k, RID(i, 0));
      InsertBounded(index, Entry(k, RID(i, 0)));
      i := i + 1;
    }
    SearchAfterInsertCount(index, k, RID(i, 0));
    InsertBounded(index, Entry(k, RID(i, 0)));
    index.FoundIsBounded(k);
    r := index.Search(k);
  }

  lemma SearchAfterInsertCount(index: BPlusTree, k: int, rid: RID)
    requires index.Valid()
    ensures CountKey(InsertSorted(index.Contents(), Entry(k, rid)), k) == CountKey(index.Contents(), k) + 1
  {
    if index.tree.Some? { RoutedFlat(index.tree.value, NegInf, PosInf); }
    SearchAfterInsert(index.Contents(), Entry(k, rid), k);
  }

  /** The cut the code makes there. */
  method MidpointFallback(k: int) returns (mid: nat)
    ensures mid == 146
  {
    mid := FindSplitBoundary(seq(292, _ => k), 292 / 2);
  }

  /** Separators strictly increase, so an inner node is cut at its exact midpoint. */
  method InnerSplitPoint(keys: seq<int>, ghost kids: seq<Tree>, ghost lo: Bound, ghost hi: Bound) returns (mid: nat)
    requires |keys| >= 2 && RoutedAll(keys, kids, lo, hi)
    ensures mid == |keys| / 2
  {
    RoutedBelow(keys, kids, lo, hi);
    assert Boundary(keys, |keys| / 2);
    mid := FindSplitBoundary(keys, |keys| / 2);
  }

  /** Where two leaves that do not fit one page are cut: FindRebalanceSplit always succeeds here. */
  method ShareAt(es: seq<Entry>, ideal: nat, ghost x: Tree, ghost y: Tree, ghost s: int, ghost lo: Bound,
                 ghost hi: Bound, ghost after: PageId)
    returns (at: nat)
    requires x.LeafT? && y.LeafT? && es == x.entries + y.entries && |x.entries| <= LEAF_MAX && |y.entries| <= LEAF_MAX
    requires RoutedAll([s], [x, y], lo, hi) && |es| > LEAF_MAX
    ensures Boundary(Keys(es), at) && at <= LEAF_MAX && |es| - at <= LEAF_MAX
  {
    var minSplit, maxSplit := |es| - LEAF_MAX, LEAF_MAX;
    var split := FindRebalanceSplit(Keys(es), minSplit, maxSplit, ideal);
    at := if split.Some? then split.value else Clamp(ideal, minSplit, maxSplit);
    assert [x, y][1..] == [y];
    JoinLeaves(x, y, s, lo, hi);
    assert Boundary(Keys(es), |x.entries|);
  }

  /** The first position of `e`, or the length. */
  method FindEntry(es: seq<Entry>, e: Entry) returns (pos: nat)
    ensures pos <= |es| && (forall i :: 0 <= i < pos ==> es[i] != e)
    ensures pos < |es| ==> es[pos] == e
  {
    pos := |es|;
    var i := 0;
    while i < |es|
      invariant 0 <= i <= |es| && pos == |es|
      invariant forall j :: 0 <= j < i ==> es[j] != e
    {
      if es[i] == e {
        pos := i;
        break;
      }
      i := i + 1;
    }
  }

  /** The leaf scan at the end of Search. */
  method RidsInLeaf(es: seq<Entry>, key: int) returns (results: seq<RID>)
    ensures results == RidsUnder(es, key)
  {
    results := [];
    var i := 0;
    while i < |es|
      invariant 0 <= i <= |es|
      invariant results == RidsUnder(es[..i], key)
    {
      if es[i].key == key { results := results + [es[i].rid]; }
      assert es[..i + 1] == es[..i] + [es[i]];
      RidsUnderAppend(es[..i], [es[i]], key);
      i := i + 1;
    }
    assert es[..i] == es;
  }
}
