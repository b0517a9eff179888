/** What one level of BPlusTree::DeleteRecursive and FixUnderflow does to the tree. */
module TreeDelete {
  import opened Entries
  import opened TreeShape
  import opened TreeLaws
  import opened SplitSearch
  import opened TreeInsert

  ghost function MinSize(t: Tree): nat {
    if t.LeafT? then LEAF_MIN else INTERNAL_MIN
  }

  /** `t1` is `t` without the first copy of `e`; only its own top node may be underfull. */
  ghost predicate Deleted(pages0: Pages, pages1: Pages, n: PageId, t: Tree, e: Entry, h: nat, after: PageId,
                          lo: Bound, hi: Bound, t1: Tree) {
    && Frame(pages0, pages1, Pids(t), n)
    && Forest(pages1, [t1], h, after, n)
    && Pids(t1) <= Pids(t)
    && t1.pid == t.pid
    && First(t1) == First(t)
    && e in Flat(t)
    && Flat(t1) == RemoveFirst(Flat(t), e)
    && Routed(t1, lo, hi)
    && t1.LeafT? == t.LeafT?
    && Size(t1) + 1 >= Size(t)
  }

  /** Two neighbours `x`, `y` have been rewritten as the run `m` with separators `mk`. */
  ghost predicate Rebalanced(pages0: Pages, pages1: Pages, n: PageId, x: Tree, y: Tree, h: nat, after: PageId,
                             lo: Bound, hi: Bound, mk: seq<int>, m: seq<Tree>) {
    && Frame(pages0, pages1, Pids(x) + Pids(y), n)
    && Forest(pages1, m, h, after, n)
    && PidsAll(m) <= Pids(x) + Pids(y)
    && RoutedAll(mk, m, lo, hi)
    && |m| <= 2
    && FullAll(m)
    && m[0].pid == x.pid
    && (|m| == 2 ==> m[1].pid == y.pid)
    && First(m[0]) == First(x)
    && FlatAll(m) == Flat(x) + Flat(y)
  }

  lemma PairParts(pages: Pages, x: Tree, y: Tree, s: int, h: nat, after: PageId, n: PageId, lo: Bound, hi: Bound)
    requires Forest(pages, [x, y], h, after, n) && RoutedAll([s], [x, y], lo, hi)
    ensures Forest(pages, [x], h, First(y), n) && Forest(pages, [y], h, after, n) && Pids(x) !! Pids(y)
    ensures Routed(x, lo, Fin(s)) && Routed(y, Fin(s), hi) && Below(lo, hi)
    ensures PidsAll([x, y]) == Pids(x) + Pids(y) && FlatAll([x, y]) == Flat(x) + Flat(y)
    ensures Shape(x, h, First(y)) && Shape(y, h, after)
  {
    assert [x, y] == [x] + [y];
    ForestSplit(pages, [x], [y], h, after, n);
    SingleForest(pages, x, h, First(y), n);
    SingleForest(pages, y, h, after, n);
    PidsAllAppend([x], [y]);
    FlatAllAppend([x], [y]);
    RoutedBelow([s], [x, y], lo, hi);
    assert [x, y][1..] == [y];
  }

  // ----- leaves

  /** Neighbouring leaves concatenate to a sorted run inside their common bounds. */
  lemma JoinLeaves(x: Tree, y: Tree, s: int, lo: Bound, hi: Bound)
    requires x.LeafT? && y.LeafT? && Routed(x, lo, Fin(s)) && Routed(y, Fin(s), hi)
    ensures var es := x.entries + y.entries;
            && Sorted(es) && (forall i :: 0 <= i < |es| ==> Within(es[i].key, lo, hi))
            && (x.entries != [] && y.entries != [] ==> Boundary(Keys(es), |x.entries|))
  {
    var es := x.entries + y.entries;
    forall i | 0 <= i < |x.entries| ensures x.entries[i].key < s && Within(x.entries[i].key, lo, hi) {
      assert Within(x.entries[i].key, lo, Fin(s));
    }
    forall i | 0 <= i < |y.entries| ensures y.entries[i].key >= s && Within(y.entries[i].key, lo, hi) {
      assert Within(y.entries[i].key, Fin(s), hi);
    }
  }

  lemma MergeLeaves(pages0: Pages, n: PageId, x: Tree, y: Tree, s: int, after: PageId, lo: Bound, hi: Bound)
    requires x.LeafT? && y.LeafT? && Forest(pages0, [x, y], 1, after, n) && RoutedAll([s], [x, y], lo, hi)
    requires 1 <= |x.entries| + |y.entries| <= LEAF_MAX
    ensures Rebalanced(pages0, pages0[x.pid := Leaf(y.next, x.entries + y.entries)], n, x, y, 1, after, lo, hi, [],
                       [LeafT(x.pid, y.next, x.entries + y.entries)])
  {
    PairParts(pages0, x, y, s, 1, after, n, lo, hi);
    JoinLeaves(x, y, s, lo, hi);
    var t1 := LeafT(x.pid, y.next, x.entries + y.entries);
    SingleForest(pages0[x.pid := Leaf(y.next, t1.entries)], t1, 1, after, n);
    assert Routed(t1, lo, hi);
  }

  lemma ShareLeavesForest(pages0: Pages, pages1: Pages, n: PageId, x: Tree, y: Tree, after: PageId, l: Tree, r: Tree)
    requires x.LeafT? && y.LeafT? && Forest(pages0, [x], 1, y.pid, n) && Forest(pages0, [y], 1, after, n)
    requires x.pid != y.pid
    requires l.LeafT? && r.LeafT? && |l.entries| <= LEAF_MAX && |r.entries| <= LEAF_MAX
    requires l.pid == x.pid && l.next == x.next && r.pid == y.pid && r.next == y.next
    requires Rep(pages1, l) && Rep(pages1, r)
    ensures Forest(pages1, [l, r], 1, after, n) && PidsAll([l, r]) == Pids(x) + Pids(y)
    ensures FlatAll([l, r]) == l.entries + r.entries
  {
    SingleForest(pages0, x, 1, y.pid, n);
    SingleForest(pages0, y, 1, after, n);
    SingleForest(pages1, l, 1, First(r), n);
    SingleForest(pages1, r, 1, after, n);
    PairForest(pages1, l, r, 1, after, n);
  }

  lemma ShareLeaves(pages0: Pages, pages1: Pages, n: PageId, x: Tree, y: Tree, s: int, at: nat, after: PageId,
                    lo: Bound, hi: Bound)
    requires x.LeafT? && y.LeafT? && Forest(pages0, [x, y], 1, after, n) && RoutedAll([s], [x, y], lo, hi)
    requires Boundary(Keys(x.entries + y.entries), at) && at <= LEAF_MAX && |x.entries| + |y.entries| - at <= LEAF_MAX
    requires Frame(pages0, pages1, {x.pid, y.pid}, n) && x.pid in pages1 && y.pid in pages1
    requires pages1[x.pid] == Leaf(x.next, (x.entries + y.entries)[..at])
    requires pages1[y.pid] == Leaf(y.next, (x.entries + y.entries)[at..])
    ensures var es := x.entries + y.entries;
            Rebalanced(pages0, pages1, n, x, y, 1, after, lo, hi, [es[at].key],
                       [LeafT(x.pid, x.next, es[..at]), LeafT(y.pid, y.next, es[at..])])
  {
    PairParts(pages0, x, y, s, 1, after, n, lo, hi);
    JoinLeaves(x, y, s, lo, hi);
    var es := x.entries + y.entries;
    var l, r := LeafT(x.pid, x.next, es[..at]), LeafT(y.pid, y.next, es[at..]);
    ShareLeavesForest(pages0, pages1, n, x, y, after, l, r);
    assert es[..at] + es[at..] == es;
    LeafCut(l, r, es, at, lo, hi);
  }

  // ----- internal nodes: the parent's separator comes down between the two halves

  lemma JoinNodesForest(pages: Pages, n: PageId, x: Tree, y: Tree, h: nat, after: PageId)
    requires x.NodeT? && y.NodeT? && Forest(pages, [x], h, First(y), n) && Forest(pages, [y], h, after, n)
    requires Pids(x) !! Pids(y)
    ensures h >= 2 && Forest(pages, x.kids + y.kids, h - 1, after, n)
    ensures x.pid != y.pid && x.pid !in PidsAll(x.kids + y.kids) && y.pid !in PidsAll(x.kids + y.kids)
    ensures 1 <= x.pid < n && 1 <= y.pid < n && |x.kids| == |x.keys| + 1 && |y.kids| == |y.keys| + 1
    ensures Pids(x) + Pids(y) == {x.pid, y.pid} + PidsAll(x.kids + y.kids)
    ensures First(x) == First((x.kids + y.kids)[0])
  {
    SingleForest(pages, x, h, First(y), n);
    SingleForest(pages, y, h, after, n);
    PidsAllAppend(x.kids, y.kids);
    assert First(y) == FirstAll(y.kids, after);
    ForestSplit(pages, x.kids, y.kids, h - 1, after, n);
  }

  lemma JoinNodes(pages: Pages, n: PageId, x: Tree, y: Tree, s: int, h: nat, after: PageId, lo: Bound, hi: Bound)
    requires x.NodeT? && y.NodeT? && Forest(pages, [x, y], h, after, n) && RoutedAll([s], [x, y], lo, hi)
    ensures h >= 2 && Forest(pages, x.kids + y.kids, h - 1, after, n)
    ensures RoutedAll(x.keys + [s] + y.keys, x.kids + y.kids, lo, hi) && FullAll(x.kids + y.kids)
    ensures x.pid != y.pid && x.pid !in PidsAll(x.kids + y.kids) && y.pid !in PidsAll(x.kids + y.kids)
    ensures 1 <= x.pid < n && 1 <= y.pid < n && |x.kids| == |x.keys| + 1 && |y.kids| == |y.keys| + 1
    ensures Pids(x) + Pids(y) == {x.pid, y.pid} + PidsAll(x.kids + y.kids)
    ensures FlatAll(x.kids + y.kids) == Flat(x) + Flat(y)
    ensures First(x) == First((x.kids + y.kids)[0]) && Below(lo, hi)
  {
    PairParts(pages, x, y, s, h, after, n, lo, hi);
    JoinNodesForest(pages, n, x, y, h, after);
    FlatAllAppend(x.kids, y.kids);
    RoutedAllJoin(x.keys, x.kids, s, y.keys, y.kids, lo, hi);
  }

  lemma MergeNodes(pages0: Pages, n: PageId, x: Tree, y: Tree, s: int, h: nat, after: PageId, lo: Bound, hi: Bound,
                   node: Node)
    requires x.NodeT? && y.NodeT? && Forest(pages0, [x, y], h, after, n) && RoutedAll([s], [x, y], lo, hi)
    requires INTERNAL_MIN <= |x.keys| + |y.keys| + 1 <= INTERNAL_MAX
    requires ChildrenAre(node, x.keys + [s] + y.keys, x.kids + y.kids)
    ensures Rebalanced(pages0, pages0[x.pid := node], n, x, y, h, after, lo, hi, [],
                       [NodeT(x.pid, x.keys + [s] + y.keys, x.kids + y.kids)])
  {
    JoinNodes(pages0, n, x, y, s, h, after, lo, hi);
    var t1, pages1 := NodeT(x.pid, x.keys + [s] + y.keys, x.kids + y.kids), pages0[x.pid := node];
    ForestFrame(pages0, pages1, t1.kids, h - 1, after, n, {x.pid}, n);
    NodeForest(pages1, t1, h - 1, after, n);
    SingleForest(pages1, t1, h, after, n);
  }

  lemma ShareNodes(pages0: Pages, pages1: Pages, n: PageId, x: Tree, y: Tree, s: int, m: nat, h: nat, after: PageId,
                   lo: Bound, hi: Bound)
    requires x.NodeT? && y.NodeT? && Forest(pages0, [x, y], h, after, n) && RoutedAll([s], [x, y], lo, hi)
    requires INTERNAL_MIN <= m && INTERNAL_MIN <= |x.keys| + |y.keys| - m
    requires |x.keys| + |y.keys| <= INTERNAL_MAX + INTERNAL_MIN
    requires Frame(pages0, pages1, {x.pid, y.pid}, n) && x.pid in pages1 && y.pid in pages1
    requires |x.kids| == |x.keys| + 1 && |y.kids| == |y.keys| + 1
    requires ChildrenAre(pages1[x.pid], (x.keys + [s] + y.keys)[..m], (x.kids + y.kids)[..m + 1])
    requires ChildrenAre(pages1[y.pid], (x.keys + [s] + y.keys)[m + 1..], (x.kids + y.kids)[m + 1..])
    ensures var ks, ts := x.keys + [s] + y.keys, x.kids + y.kids;
            Rebalanced(pages0, pages1, n, x, y, h, after, lo, hi, [ks[m]],
                       [NodeT(x.pid, ks[..m], ts[..m + 1]), NodeT(y.pid, ks[m + 1..], ts[m + 1..])])
  {
    JoinNodes(pages0, n, x, y, s, h, after, lo, hi);
    var ks, ts := x.keys + [s] + y.keys, x.kids + y.kids;
    ForestFrame(pages0, pages1, ts, h - 1, after, n, {x.pid, y.pid}, n);
    NodeCutRouted(x.pid, y.pid, ks, ts, m, lo, hi);
    NodeCut(pages1, x.pid, y.pid, ks, ts, m, h - 1, after, n);
  }

  // ----- back in the parent

  /** The children of a node after FixUnderflow: same contents, every child full again. */
  ghost predicate Fixed(pages0: Pages, pages1: Pages, n: PageId, keys: seq<int>, kids: seq<Tree>, h: nat, after: PageId,
                        lo: Bound, hi: Bound, keys1: seq<int>, kids1: seq<Tree>) {
    && Frame(pages0, pages1, PidsAll(kids), n)
    && Forest(pages1, kids1, h, after, n)
    && PidsAll(kids1) <= PidsAll(kids)
    && RoutedAll(keys1, kids1, lo, hi)
    && FullAll(kids1)
    && FlatAll(kids1) == FlatAll(kids)
    && kids != [] && First(kids1[0]) == First(kids[0])
    && |keys1| <= |keys| <= |keys1| + 1
  }

  ghost predicate FullExcept(ts: seq<Tree>, idx: nat) {
    forall i :: 0 <= i < |ts| && i != idx ==> Full(ts[i])
  }

  lemma PairAt(pages: Pages, n: PageId, keys: seq<int>, kids: seq<Tree>, i: nat, h: nat, after: PageId, lo: Bound,
               hi: Bound)
    requires Forest(pages, kids, h, after, n) && RoutedAll(keys, kids, lo, hi) && i + 1 < |kids|
    ensures |keys| == |kids| - 1
    ensures Forest(pages, [kids[i], kids[i + 1]], h, FirstAll(kids[i + 2..], after), n)
    ensures RoutedAll([keys[i]], [kids[i], kids[i + 1]], LoAt(keys, lo, i), HiAt(keys, hi, i + 1))
    ensures Rep(pages, kids[i]) && Rep(pages, kids[i + 1])
    ensures Shape(kids[i], h, First(kids[i + 1])) && Shape(kids[i + 1], h, FirstAll(kids[i + 2..], after))
  {
    var a, m, c := kids[..i], [kids[i], kids[i + 1]], kids[i + 2..];
    assert kids == a + m + c;
    ForestSplit(pages, a + m, c, h, after, n);
    ForestSplit(pages, a, m, h, FirstAll(c, after), n);
    RoutedSlice(keys, kids, lo, hi, i, i + 2);
    assert kids[i..i + 2] == m && keys[i..i + 1] == [keys[i]];
    PairParts(pages, kids[i], kids[i + 1], keys[i], h, FirstAll(c, after), n, LoAt(keys, lo, i), HiAt(keys, hi, i + 1));
    SingleForest(pages, kids[i], h, First(kids[i + 1]), n);
    SingleForest(pages, kids[i + 1], h, FirstAll(c, after), n);
  }

  lemma RefitForest(pages0: Pages, pages1: Pages, n: PageId, kids: seq<Tree>, i: nat, h: nat, after: PageId,
                    m: seq<Tree>)
    requires Forest(pages0, kids, h, after, n) && i + 1 < |kids| && m != []
    requires Frame(pages0, pages1, Pids(kids[i]) + Pids(kids[i + 1]), n)
    requires Forest(pages1, m, h, FirstAll(kids[i + 2..], after), n) && PidsAll(m) <= Pids(kids[i]) + Pids(kids[i + 1])
    requires First(m[0]) == First(kids[i]) && FlatAll(m) == Flat(kids[i]) + Flat(kids[i + 1])
    ensures var kids1 := kids[..i] + m + kids[i + 2..];
            && Frame(pages0, pages1, PidsAll(kids), n)
            && Forest(pages1, kids1, h, after, n)
            && PidsAll(kids1) <= PidsAll(kids)
            && FlatAll(kids1) == FlatAll(kids)
            && First(kids1[0]) == First(kids[0])
  {
    var a, p, c := kids[..i], [kids[i], kids[i + 1]], kids[i + 2..];
    assert kids == a + p + c;
    assert p == [kids[i]] + [kids[i + 1]];
    SingleForest(map[], kids[i], 0, 0, 0);
    SingleForest(map[], kids[i + 1], 0, 0, 0);
    PidsAllAppend([kids[i]], [kids[i + 1]]);
    FlatAllAppend([kids[i]], [kids[i + 1]]);
    PidsAllAppend(a + p, c);
    PidsAllAppend(a, p);
    ForestSplice(pages0, pages1, a, p, c, m, h, after, n, n);
    PidsAllAppend(a + m, c);
    PidsAllAppend(a, m);
    FlatSplice(a, p, c);
    FlatSplice(a, m, c);
  }

  lemma Refit(pages0: Pages, pages1: Pages, n: PageId, keys: seq<int>, kids: seq<Tree>, i: nat, h: nat, after: PageId,
              lo: Bound, hi: Bound, mk: seq<int>, m: seq<Tree>)
    requires Forest(pages0, kids, h, after, n) && RoutedAll(keys, kids, lo, hi) && i + 1 < |kids|
    requires FullExcept(kids, i) || FullExcept(kids, i + 1)
    requires Rebalanced(pages0, pages1, n, kids[i], kids[i + 1], h, FirstAll(kids[i + 2..], after),
                        LoAt(keys, lo, i), HiAt(keys, hi, i + 1), mk, m)
    ensures Fixed(pages0, pages1, n, keys, kids, h, after, lo, hi, keys[..i] + mk + keys[i + 1..], kids[..i] + m +
            kids[i + 2..])
  {
    RefitForest(pages0, pages1, n, kids, i, h, after, m);
    RoutedSplice(keys, kids, lo, hi, i, i + 2, mk, m);
  }

  /** The children of `t` after the delete below, before or after FixUnderflow. */
  ghost predicate Shrunk(pages0: Pages, pages1: Pages, n: PageId, t: Tree, e: Entry, h: nat, after: PageId,
                         lo: Bound, hi: Bound, keys: seq<int>, kids: seq<Tree>) {
    && t.NodeT? && h >= 2 && t.kids != []
    && Forest(pages1, kids, h - 1, after, n)
    && kids != [] && First(kids[0]) == First(t)
    && Frame(pages0, pages1, PidsAll(t.kids), n)
    && PidsAll(kids) <= PidsAll(t.kids)
    && 1 <= t.pid < n && t.pid !in PidsAll(t.kids) && Pids(t) == {t.pid} + PidsAll(t.kids)
    && e in Flat(t)
    && FlatAll(kids) == RemoveFirst(Flat(t), e)
    && RoutedAll(keys, kids, lo, hi)
    && |keys| <= |t.keys| <= |keys| + 1 && |t.keys| <= INTERNAL_MAX
  }

  lemma ShrinkFlat(t: Tree, e: Entry, lo: Bound, hi: Bound, idx: nat, c1: Tree)
    requires t.NodeT? && Routed(t, lo, hi) && Within(e.key, lo, hi) && idx == UpperBound(t.keys, e.key)
    requires idx < |t.kids|
    requires e in Flat(t.kids[idx]) && Flat(c1) == RemoveFirst(Flat(t.kids[idx]), e)
    ensures e in Flat(t) && FlatAll(NewKids(t, idx, [c1])) == RemoveFirst(Flat(t), e)
  {
    DescendFlat(t, lo, hi, e.key, idx);
    var a, m, c := FlatAll(t.kids[..idx]), Flat(t.kids[idx]), FlatAll(t.kids[idx + 1..]);
    assert e !in a;
    RemoveFirstLeft(a + m, c, e);
    RemoveFirstRight(a, m, e);
    FlatSplice(t.kids[..idx], [c1], t.kids[idx + 1..]);
    SingleForest(map[], c1, 0, 0, 0);
  }

  lemma ShrinkForest(pages0: Pages, pages1: Pages, n: PageId, t: Tree, h: nat, after: PageId, idx: nat, c1: Tree)
    requires t.NodeT? && Forest(pages0, [t], h, after, n) && h >= 2 && idx < |t.kids|
    requires Frame(pages0, pages1, Pids(t.kids[idx]), n) && Pids(c1) <= Pids(t.kids[idx])
    requires First(c1) == First(t.kids[idx])
    requires Forest(pages1, [c1], h - 1, FirstAll(t.kids[idx + 1..], after), n)
    ensures Forest(pages1, NewKids(t, idx, [c1]), h - 1, after, n)
    ensures First(NewKids(t, idx, [c1])[0]) == First(t)
    ensures Frame(pages0, pages1, PidsAll(t.kids), n)
    ensures 1 <= t.pid < n && t.pid !in PidsAll(t.kids) && Pids(t) == {t.pid} + PidsAll(t.kids)
  {
    Descend(pages0, t, h, after, n, idx);
    assert 1 <= t.pid < n && First(t) == First(t.kids[0]) by { SingleForest(pages0, t, h, after, n); }
    var a, m, c := t.kids[..idx], [t.kids[idx]], t.kids[idx + 1..];
    SingleForest(pages0, t.kids[idx], h - 1, FirstAll(c, after), n);
    SingleForest(pages1, c1, h - 1, FirstAll(c, after), n);
    ForestSplice(pages0, pages1, a, m, c, [c1], h - 1, after, n, n);
  }

  lemma Shrink(pages0: Pages, pages1: Pages, n: PageId, t: Tree, e: Entry, h: nat, after: PageId,
               lo: Bound, hi: Bound, idx: nat, c1: Tree)
    requires t.NodeT? && Forest(pages0, [t], h, after, n) && h >= 2 && |t.keys| <= INTERNAL_MAX
    requires Routed(t, lo, hi) && Within(e.key, lo, hi) && idx == UpperBound(t.keys, e.key) && idx < |t.kids|
    requires Deleted(pages0, pages1, n, t.kids[idx], e, h - 1, FirstAll(t.kids[idx + 1..], after),
                     LoAt(t.keys, lo, idx), HiAt(t.keys, hi, idx), c1)
    ensures Shrunk(pages0, pages1, n, t, e, h, after, lo, hi, t.keys, NewKids(t, idx, [c1]))
    ensures FullExcept(NewKids(t, idx, [c1]), idx)
  {
    ShrinkForest(pages0, pages1, n, t, h, after, idx, c1);
    ShrinkPids(t, idx, c1);
    ShrinkFlat(t, e, lo, hi, idx, c1);
    RoutedSplice(t.keys, t.kids, lo, hi, idx, idx + 1, [], [c1]);
    assert t.keys[..idx] + [] + t.keys[idx..] == t.keys;
  }

  lemma ShrinkPids(t: Tree, idx: nat, c1: Tree)
    requires t.NodeT? && idx < |t.kids| && Pids(c1) <= Pids(t.kids[idx])
    ensures PidsAll(NewKids(t, idx, [c1])) <= PidsAll(t.kids) && Pids(t.kids[idx]) <= PidsAll(t.kids)
  {
    var a, m, c := t.kids[..idx], [t.kids[idx]], t.kids[idx + 1..];
    assert t.kids == a + m + c;
    PidsAllAppend(a + m, c);
    PidsAllAppend(a, m);
    PidsAllAppend(a + [c1], c);
    PidsAllAppend(a, [c1]);
    SingleForest(map[], c1, 0, 0, 0);
    SingleForest(map[], t.kids[idx], 0, 0, 0);
  }

  lemma ShrinkFixed(pages0: Pages, pages1: Pages, pages2: Pages, n: PageId, t: Tree, e: Entry, h: nat, after: PageId,
                    lo: Bound, hi: Bound, kids: seq<Tree>, keys2: seq<int>, kids2: seq<Tree>)
    requires t.NodeT? && Shrunk(pages0, pages1, n, t, e, h, after, lo, hi, t.keys, kids)
    requires Fixed(pages1, pages2, n, t.keys, kids, h - 1, after, lo, hi, keys2, kids2)
    ensures Shrunk(pages0, pages2, n, t, e, h, after, lo, hi, keys2, kids2)
  {
  }

  lemma NodeDeleted(pages0: Pages, pages1: Pages, n: PageId, t: Tree, e: Entry, h: nat, after: PageId,
                    lo: Bound, hi: Bound, keys: seq<int>, kids: seq<Tree>, node: Node)
    requires Shrunk(pages0, pages1, n, t, e, h, after, lo, hi, keys, kids) && FullAll(kids)
    requires ChildrenAre(node, keys, kids)
    ensures Deleted(pages0, pages1[t.pid := node], n, t, e, h, after, lo, hi, NodeT(t.pid, keys, kids))
  {
    var pages2, t1 := pages1[t.pid := node], NodeT(t.pid, keys, kids);
    RoutedBelow(keys, kids, lo, hi);
    ForestFrame(pages1, pages2, kids, h - 1, after, n, {t.pid}, n);
    NodeForest(pages2, t1, h - 1, after, n);
    SingleForest(pages2, t1, h, after, n);
  }

  lemma LeafDeleted(pages0: Pages, n: PageId, t: Tree, e: Entry, after: PageId, lo: Bound, hi: Bound, pos: nat)
    requires t.LeafT? && Forest(pages0, [t], 1, after, n) && Routed(t, lo, hi)
    requires pos < |t.entries| && t.entries[pos] == e && forall i :: 0 <= i < pos ==> t.entries[i] != e
    ensures var es := t.entries[..pos] + t.entries[pos + 1..];
            Deleted(pages0, pages0[t.pid := Leaf(t.next, es)], n, t, e, 1, after, lo, hi, LeafT(t.pid, t.next, es))
  {
    var es := t.entries[..pos] + t.entries[pos + 1..];
    RemoveFirstAt(t.entries, e, pos);
    var t1, pages1 := LeafT(t.pid, t.next, es), pages0[t.pid := Leaf(t.next, es)];
    SingleForest(pages0, t, 1, after, n);
    SingleForest(pages1, t1, 1, after, n);
    assert Routed(t1, lo, hi);
  }

  // ----- the page contents FixUnderflow writes, as slices of the joined siblings

  ghost predicate IsNode(node: Node, t: Tree) {
    t.NodeT? && ChildrenAre(node, t.keys, t.kids) && |t.kids| == |t.keys| + 1
  }

  lemma BorrowFromLeft(x: Tree, y: Tree, s: int, nx: Node, ny: Node)
    requires IsNode(nx, x) && IsNode(ny, y) && |x.keys| >= 1
    ensures var ks, ts, m := x.keys + [s] + y.keys, x.kids + y.kids, |x.keys| - 1;
            && ks[m] == nx.keys[m]
            && ChildrenAre(Internal(nx.keys[..m], nx.children[..m + 1]), ks[..m], ts[..m + 1])
            && ChildrenAre(Internal([s] + ny.keys, [nx.children[m + 1]] + ny.children), ks[m + 1..], ts[m + 1..])
  {
    var ks, m := x.keys + [s] + y.keys, |x.keys| - 1;
    assert ks[..m] == x.keys[..m] && ks[m + 1..] == [s] + y.keys;
  }

  lemma BorrowFromRight(x: Tree, y: Tree, s: int, nx: Node, ny: Node)
    requires IsNode(nx, x) && IsNode(ny, y) && |y.keys| >= 1
    ensures var ks, ts, m := x.keys + [s] + y.keys, x.kids + y.kids, |x.keys| + 1;
            && ks[m] == ny.keys[0]
            && ChildrenAre(Internal(nx.keys + [s], nx.children + [ny.children[0]]), ks[..m], ts[..m + 1])
            && ChildrenAre(Internal(ny.keys[1..], ny.children[1..]), ks[m + 1..], ts[m + 1..])
  {
    var ks, m := x.keys + [s] + y.keys, |x.keys| + 1;
    assert ks[..m] == x.keys + [s] && ks[m + 1..] == y.keys[1..];
  }

  lemma JoinPages(x: Tree, y: Tree, s: int, nx: Node, ny: Node)
    requires IsNode(nx, x) && IsNode(ny, y)
    ensures ChildrenAre(Internal(nx.keys + [s] + ny.keys, nx.children + ny.children), x.keys + [s] + y.keys, x.kids +
            y.kids)
  {
  }

  /** The parent's own vectors once neighbours i and i+1 became the run `m`. */
  lemma ParentPages(keys: seq<int>, children: seq<PageId>, kids: seq<Tree>, i: nat, m: seq<Tree>, mk: seq<int>)
    requires ChildrenAre(Internal(keys, children), keys, kids) && |kids| == |keys| + 1 && i + 1 < |kids|
    requires 1 <= |m| <= 2 && |mk| == |m| - 1 && m[0].pid == kids[i].pid && (|m| == 2 ==> m[1].pid == kids[i + 1].pid)
    ensures var keys1, kids1 := keys[..i] + mk + keys[i + 1..], kids[..i] + m + kids[i + 2..];
            && (|m| == 1 ==> keys1 == keys[..i] + keys[i + 1..] &&
                             ChildrenAre(Internal(keys1, children[..i + 1] + children[i + 2..]), keys1, kids1))
            && (|m| == 2 ==> keys1 == keys[i := mk[0]] && ChildrenAre(Internal(keys1, children), keys1, kids1))
  {
  }

  /** An internal root left with a single child hands the tree over to it. */
  lemma CollapseRoot(pages: Pages, n: PageId, t: Tree, h: nat)
    requires t.NodeT? && |t.kids| == 1 && Forest(pages, [t], h, INVALID_PAGE_ID, n) && Routed(t, NegInf, PosInf)
    ensures h >= 2 && Forest(pages, [t.kids[0]], h - 1, INVALID_PAGE_ID, n)
    ensures Routed(t.kids[0], NegInf, PosInf) && Size(t.kids[0]) >= 1 && Flat(t.kids[0]) == Flat(t)
    ensures 0 !in PidsAll([t.kids[0]])
  {
    Descend(pages, t, h, INVALID_PAGE_ID, n, 0);
    SingleForest(pages, t.kids[0], h - 1, INVALID_PAGE_ID, n);
    assert t.kids == [t.kids[0]] && Full(t.kids[0]);
  }
}
