/** What one level of BPlusTree::InsertRecursive does to the tree it works on. */
module TreeInsert {
  import opened Wrappers
  import opened Entries
  import opened TreeShape
  import opened TreeLaws
  import opened SplitSearch

  datatype Split = Split(splitKey: int, rightPid: PageId)

  ghost function Seps(split: Option<Split>): seq<int> {
    if split.None? then [] else [split.value.splitKey]
  }

  ghost function Size(t: Tree): nat {
    match t
    case LeafT(_, _, es) => |es|
    case NodeT(_, keys, _) => |keys|
  }

  /** The insert is routing-safe for this subtree: the key has room for one more entry. */
  ghost predicate Fits(t: Tree, key: int) {
    CountKey(Flat(t), key) < LEAF_MAX
  }

  /** `ts` (one tree, or two around a new separator) is `t` with `e` added. */
  ghost predicate Inserted(pages0: Pages, n0: PageId, pages1: Pages, n1: PageId, t: Tree, e: Entry, h: nat,
                           after: PageId,
                           lo: Bound, hi: Bound, split: Option<Split>, ts: seq<Tree>) {
    && n0 <= n1 && n1 as int <= n0 as int + h
    && Frame(pages0, pages1, Pids(t), n0)
    && Forest(pages1, ts, h, after, n1)
    && (forall p :: p in PidsAll(ts) ==> p in Pids(t) || p >= n0)
    && |ts| == |Seps(split)| + 1
    && ts[0].pid == t.pid
    && First(ts[0]) == First(t)
    && (split.Some? ==> ts[1].pid == split.value.rightPid)
    && FlatAll(ts) == InsertSorted(Flat(t), e)
    && (Fits(t, e.key) ==>
          && RoutedAll(Seps(split), ts, lo, hi)
          && (split.Some? || Full(t) ==> FullAll(ts))
          && (split.None? ==> Size(ts[0]) >= Size(t) && (ts[0].LeafT? ==> Size(ts[0]) >= 1)))
  }

  /** A sorted overfull leaf that is not one run of equal keys has a boundary. */
  lemma {:induction false} HasBoundary(es: seq<Entry>, k: int)
    requires |es| > LEAF_MAX && CountKey(es, k) < |es| && k in Keys(es)
    ensures exists i :: Boundary(Keys(es), i)
  {
    if forall i :: 1 <= i < |es| ==> !Boundary(Keys(es), i) {
      AllEqual(es, |es| - 1);
      RidsUnderAll(es, k);
    }
  }

  lemma {:induction false} AllEqual(es: seq<Entry>, n: nat)
    requires n < |es|
    requires forall i :: 1 <= i <= n ==> !Boundary(Keys(es), i)
    ensures forall i :: 0 <= i <= n ==> es[i].key == es[0].key
  {
    if n > 0 {
      AllEqual(es, n - 1);
      assert !Boundary(Keys(es), n);
    }
  }

  /** Cutting sorted entries at a boundary gives two leaves on the two sides of a strict separator. */
  lemma LeafCut(l: Tree, r: Tree, es: seq<Entry>, mid: nat, lo: Bound, hi: Bound)
    requires Boundary(Keys(es), mid)
    requires Sorted(es) && forall i :: 0 <= i < |es| ==> Within(es[i].key, lo, hi)
    requires l.LeafT? && r.LeafT? && l.entries == es[..mid] && r.entries == es[mid..]
    ensures RoutedAll([es[mid].key], [l, r], lo, hi) && FullAll([l, r])
  {
    assert es[mid - 1].key < es[mid].key;
    assert l.entries[mid - 1] == es[mid - 1] && r.entries[0] == es[mid];
    assert Within(es[mid - 1].key, lo, hi) && Within(es[mid].key, lo, hi);
    assert Routed(l, lo, Fin(es[mid].key)) by {
      forall i | 0 <= i < mid ensures Within(l.entries[i].key, lo, Fin(es[mid].key)) {
        assert es[i].key <= es[mid - 1].key;
      }
    }
    assert Routed(r, Fin(es[mid].key), hi) by {
      forall i | 0 <= i < |r.entries| ensures Within(r.entries[i].key, Fin(es[mid].key), hi) {
        assert r.entries[i] == es[mid + i];
      }
    }
    assert [l, r][1..] == [r];
  }

  /** The entry lands inside the leaf's bounds, and the leaf stays sorted. */
  lemma LeafInsert(t: Tree, e: Entry, lo: Bound, hi: Bound, pos: nat)
    requires t.LeafT? && Routed(t, lo, hi) && Within(e.key, lo, hi)
    requires pos == UpperBound(Keys(t.entries), e.key)
    ensures var es := t.entries[..pos] + [e] + t.entries[pos..];
            && es == InsertSorted(t.entries, e) && Sorted(es)
            && (forall i :: 0 <= i < |es| ==> Within(es[i].key, lo, hi))
            && e.key in Keys(es)
            && (Fits(t, e.key) && |es| > LEAF_MAX ==> CountKey(es, e.key) < |es|)
  {
    var es := t.entries[..pos] + [e] + t.entries[pos..];
    InsertSortedAt(t.entries, e, pos);
    InsertSortedSorted(t.entries, e);
    assert Keys(es)[pos] == e.key;
    SearchAfterInsert(t.entries, e, e.key);
  }

  lemma PairForest(pages: Pages, l: Tree, r: Tree, h: nat, after: PageId, n: PageId)
    requires Forest(pages, [l], h, First(r), n) && Forest(pages, [r], h, after, n)
    requires Pids(l) !! Pids(r)
    ensures Forest(pages, [l, r], h, after, n)
    ensures PidsAll([l, r]) == Pids(l) + Pids(r)
    ensures FlatAll([l, r]) == Flat(l) + Flat(r)
  {
    assert [l, r] == [l] + [r];
    SingleForest(pages, l, h, First(r), n);
    SingleForest(pages, r, h, after, n);
    ForestSplit(pages, [l], [r], h, after, n);
    PidsAllAppend([l], [r]);
    FlatAllAppend([l], [r]);
  }

  /** The pages below an internal node, seen from the child a descent goes to. */
  lemma Descend(pages: Pages, t: Tree, h: nat, after: PageId, n: PageId, idx: nat)
    requires t.NodeT? && Forest(pages, [t], h, after, n) && idx < |t.kids|
    ensures h >= 2 && t.kids == t.kids[..idx] + [t.kids[idx]] + t.kids[idx + 1..]
    ensures Forest(pages, t.kids, h - 1, after, n)
    ensures Forest(pages, [t.kids[idx]], h - 1, FirstAll(t.kids[idx + 1..], after), n)
    ensures t.pid !in PidsAll(t.kids) && Pids(t) == {t.pid} + PidsAll(t.kids)
    ensures Pids(t.kids[idx]) <= PidsAll(t.kids)
  {
    SingleForest(pages, t, h, after, n);
    var a, m, c := t.kids[..idx], [t.kids[idx]], t.kids[idx + 1..];
    assert t.kids == a + m + c;
    ForestSplit(pages, a + m, c, h - 1, after, n);
    ForestSplit(pages, a, m, h - 1, FirstAll(c, after), n);
    PidsAllAppend(a + m, c);
    PidsAllAppend(a, m);
    SingleForest(pages, t.kids[idx], h - 1, FirstAll(c, after), n);
  }

  /** The children of `t` once the child at `idx` has been replaced by the outcome of its insert. */
  ghost function NewKids(t: Tree, idx: nat, ts: seq<Tree>): seq<Tree>
    requires t.NodeT? && idx < |t.kids|
  {
    t.kids[..idx] + ts + t.kids[idx + 1..]
  }

  ghost function NewKeys(t: Tree, idx: nat, split: Option<Split>): seq<int>
    requires t.NodeT? && idx <= |t.keys|
  {
    t.keys[..idx] + Seps(split) + t.keys[idx..]
  }

  lemma AbsorbForest(pages0: Pages, n0: PageId, pages1: Pages, n1: PageId, t: Tree, e: Entry, h: nat, after: PageId,
                     lo: Bound, hi: Bound, idx: nat, split: Option<Split>, ts: seq<Tree>)
    requires t.NodeT? && Forest(pages0, [t], h, after, n0) && h >= 2 && idx < |t.kids| && idx <= |t.keys|
    requires Inserted(pages0, n0, pages1, n1, t.kids[idx], e, h - 1, FirstAll(t.kids[idx + 1..], after), lo, hi, split,
            ts)
    ensures Forest(pages1, NewKids(t, idx, ts), h - 1, after, n1)
    ensures First(NewKids(t, idx, ts)[0]) == First(t)
    ensures Frame(pages0, pages1, PidsAll(t.kids), n0)
    ensures forall p :: p in PidsAll(NewKids(t, idx, ts)) ==> p in PidsAll(t.kids) || p >= n0
    ensures 1 <= t.pid < n0 && t.pid !in PidsAll(NewKids(t, idx, ts))
    ensures t.pid in pages0 && t.pid in pages1 && pages1[t.pid] == pages0[t.pid]
  {
    Descend(pages0, t, h, after, n0, idx);
    SingleForest(pages0, t, h, after, n0);
    var a, m, c := t.kids[..idx], [t.kids[idx]], t.kids[idx + 1..];
    SingleForest(pages0, t.kids[idx], h - 1, FirstAll(c, after), n0);
    ForestSplice(pages0, pages1, a, m, c, ts, h - 1, after, n0, n1);
  }

  lemma AbsorbFlat(t: Tree, e: Entry, lo: Bound, hi: Bound, idx: nat, ts: seq<Tree>)
    requires t.NodeT? && Routed(t, lo, hi) && Within(e.key, lo, hi) && idx == UpperBound(t.keys, e.key)
    requires idx < |t.kids| && FlatAll(ts) == InsertSorted(Flat(t.kids[idx]), e)
    ensures FlatAll(NewKids(t, idx, ts)) == InsertSorted(Flat(t), e)
  {
    DescendFlat(t, lo, hi, e.key, idx);
    var a, m, c := FlatAll(t.kids[..idx]), Flat(t.kids[idx]), FlatAll(t.kids[idx + 1..]);
    InsertSortedLeft(a + m, c, e);
    InsertSortedRight(a, m, e);
    FlatSplice(t.kids[..idx], ts, t.kids[idx + 1..]);
  }

  lemma AbsorbRouted(t: Tree, e: Entry, lo: Bound, hi: Bound, idx: nat, split: Option<Split>, ts: seq<Tree>)
    requires t.NodeT? && Routed(t, lo, hi) && Within(e.key, lo, hi) && idx == UpperBound(t.keys, e.key)
    requires idx < |t.kids|
    requires RoutedAll(Seps(split), ts, LoAt(t.keys, lo, idx), HiAt(t.keys, hi, idx)) && FullAll(ts)
    ensures RoutedAll(NewKeys(t, idx, split), NewKids(t, idx, ts), lo, hi)
    ensures FullAll(NewKids(t, idx, ts))
  {
    RoutedSplice(t.keys, t.kids, lo, hi, idx, idx + 1, Seps(split), ts);
  }

  /** The pages of the two halves of an internal node cut at `mid`. */
  ghost predicate HalvesAre(pages: Pages, pid: PageId, rp: PageId, keys: seq<int>, kids: seq<Tree>, mid: nat)
    requires |kids| == |keys| + 1 && mid < |keys|
  {
    && pid in pages && ChildrenAre(pages[pid], keys[..mid], kids[..mid + 1])
    && rp in pages && ChildrenAre(pages[rp], keys[mid + 1..], kids[mid + 1..])
  }

  lemma NodeCutForest(pages: Pages, pid: PageId, rp: PageId, keys: seq<int>, kids: seq<Tree>, mid: nat, h: nat,
                      after: PageId, n: PageId)
    requires Forest(pages, kids, h, after, n) && h >= 1 && |kids| == |keys| + 1
    requires 1 <= mid < |keys| && mid <= INTERNAL_MAX && |keys| - mid - 1 <= INTERNAL_MAX
    requires 1 <= pid < n && 1 <= rp < n && pid != rp && pid !in PidsAll(kids) && rp !in PidsAll(kids)
    requires HalvesAre(pages, pid, rp, keys, kids, mid)
    ensures var l, r := NodeT(pid, keys[..mid], kids[..mid + 1]), NodeT(rp, keys[mid + 1..], kids[mid + 1..]);
            Forest(pages, [l, r], h + 1, after, n) && First(l) == First(kids[0])
  {
    var l, r := NodeT(pid, keys[..mid], kids[..mid + 1]), NodeT(rp, keys[mid + 1..], kids[mid + 1..]);
    assert kids == l.kids + r.kids;
    ForestSplit(pages, l.kids, r.kids, h, after, n);
    PidsAllAppend(l.kids, r.kids);
    NodeForest(pages, r, h, after, n);
    NodeForest(pages, l, h, First(r), n);
    PairForest(pages, l, r, h + 1, after, n);
  }

  lemma NodeCutContents(pid: PageId, rp: PageId, keys: seq<int>, kids: seq<Tree>, mid: nat)
    requires |kids| == |keys| + 1 && mid < |keys|
    ensures var l, r := NodeT(pid, keys[..mid], kids[..mid + 1]), NodeT(rp, keys[mid + 1..], kids[mid + 1..]);
            PidsAll([l, r]) == PidsAll(kids) + {pid, rp} && FlatAll([l, r]) == FlatAll(kids)
  {
    var l, r := NodeT(pid, keys[..mid], kids[..mid + 1]), NodeT(rp, keys[mid + 1..], kids[mid + 1..]);
    assert kids == l.kids + r.kids && [l, r] == [l] + [r] && [l][1..] == [] && [r][1..] == [];
    PidsAllAppend(l.kids, r.kids);
    FlatAllAppend(l.kids, r.kids);
    PidsAllAppend([l], [r]);
    FlatAllAppend([l], [r]);
    assert FlatAll([l]) == Flat(l) + [] && FlatAll([r]) == Flat(r) + [];
  }

  /** Cutting an overfull internal node at `mid`: the middle key moves up. */
  lemma NodeCut(pages: Pages, pid: PageId, rp: PageId, keys: seq<int>, kids: seq<Tree>, mid: nat, h: nat, after: PageId,
                n: PageId)
    requires Forest(pages, kids, h, after, n) && h >= 1 && |kids| == |keys| + 1
    requires 1 <= mid < |keys| && mid <= INTERNAL_MAX && |keys| - mid - 1 <= INTERNAL_MAX
    requires 1 <= pid < n && 1 <= rp < n && pid != rp && pid !in PidsAll(kids) && rp !in PidsAll(kids)
    requires HalvesAre(pages, pid, rp, keys, kids, mid)
    ensures var l, r := NodeT(pid, keys[..mid], kids[..mid + 1]), NodeT(rp, keys[mid + 1..], kids[mid + 1..]);
            && Forest(pages, [l, r], h + 1, after, n)
            && First(l) == First(kids[0])
            && PidsAll([l, r]) == PidsAll(kids) + {pid, rp}
            && FlatAll([l, r]) == FlatAll(kids)
  {
    NodeCutForest(pages, pid, rp, keys, kids, mid, h, after, n);
    NodeCutContents(pid, rp, keys, kids, mid);
  }

  lemma NodeCutRouted(pid: PageId, rp: PageId, keys: seq<int>, kids: seq<Tree>, mid: nat, lo: Bound, hi: Bound)
    requires RoutedAll(keys, kids, lo, hi) && FullAll(kids) && 1 <= mid < |keys|
    ensures RoutedAll([keys[mid]],
            [NodeT(pid, keys[..mid], kids[..mid + 1]), NodeT(rp, keys[mid + 1..], kids[mid + 1..])], lo, hi)
  {
    var l, r := NodeT(pid, keys[..mid], kids[..mid + 1]), NodeT(rp, keys[mid + 1..], kids[mid + 1..]);
    assert keys == l.keys + [keys[mid]] + r.keys && kids == l.kids + r.kids;
    RoutedAllJoin(l.keys, l.kids, keys[mid], r.keys, r.kids, lo, hi);
    RoutedBelow(keys, kids, lo, hi);
    assert [l, r][1..] == [r];
  }

  // ----- the outcomes of one level, as lemmas over the page store before and after

  function WithEntry(es: seq<Entry>, e: Entry): (r: seq<Entry>)
    ensures |r| == |es| + 1
  {
    var pos := UpperBound(Keys(es), e.key);
    es[..pos] + [e] + es[pos..]
  }

  lemma LeafKept(pages0: Pages, n: PageId, t: Tree, e: Entry, after: PageId, lo: Bound, hi: Bound)
    requires t.LeafT? && Forest(pages0, [t], 1, after, n) && Routed(t, lo, hi) && Within(e.key, lo, hi)
    requires |t.entries| < LEAF_MAX
    ensures Inserted(pages0, n, pages0[t.pid := Leaf(t.next, WithEntry(t.entries, e))], n, t, e, 1, after, lo, hi, None,
                     [LeafT(t.pid, t.next, WithEntry(t.entries, e))])
  {
    var es := WithEntry(t.entries, e);
    LeafInsert(t, e, lo, hi, UpperBound(Keys(t.entries), e.key));
    var pages1, t1 := pages0[t.pid := Leaf(t.next, es)], LeafT(t.pid, t.next, es);
    SingleForest(pages0, t, 1, after, n);
    SingleForest(pages1, t1, 1, after, n);
    assert Routed(t1, lo, hi);
  }

  lemma LeafSplitForest(pages0: Pages, n: PageId, t: Tree, after: PageId, es: seq<Entry>, mid: nat, l: Tree, r: Tree)
    requires t.LeafT? && Forest(pages0, [t], 1, after, n) && n < INVALID_PAGE_ID
    requires |es| == LEAF_MAX + 1 && 1 <= mid < |es|
    requires l == LeafT(t.pid, n, es[..mid]) && r == LeafT(n, t.next, es[mid..])
    ensures Forest(pages0[n := Blank][t.pid := Leaf(n, es[..mid])][n := Leaf(t.next, es[mid..])], [l, r], 1, after, n +
            1)
    ensures PidsAll([l, r]) == {t.pid, n} && FlatAll([l, r]) == es
  {
    var pages1 := pages0[n := Blank][t.pid := Leaf(n, es[..mid])][n := Leaf(t.next, es[mid..])];
    SingleForest(pages0, t, 1, after, n);
    SingleForest(pages1, l, 1, First(r), n + 1);
    SingleForest(pages1, r, 1, after, n + 1);
    PairForest(pages1, l, r, 1, after, n + 1);
    assert es[..mid] + es[mid..] == es;
  }

  lemma LeafSplit(pages0: Pages, n: PageId, t: Tree, e: Entry, after: PageId, lo: Bound, hi: Bound, mid: nat)
    requires t.LeafT? && Forest(pages0, [t], 1, after, n) && n < INVALID_PAGE_ID && Routed(t, lo, hi)
    requires Within(e.key, lo, hi)
    requires |t.entries| == LEAF_MAX && 1 <= mid <= LEAF_MAX
    requires (exists i :: Boundary(Keys(WithEntry(t.entries, e)), i)) ==> Boundary(Keys(WithEntry(t.entries, e)), mid)
    ensures var es := WithEntry(t.entries, e);
            Inserted(pages0, n, pages0[n := Blank][t.pid := Leaf(n, es[..mid])][n := Leaf(t.next, es[mid..])], n + 1,
                     t, e, 1, after, lo, hi, Some(Split(es[mid].key, n)),
                     [LeafT(t.pid, n, es[..mid]), LeafT(n, t.next, es[mid..])])
  {
    var es := WithEntry(t.entries, e);
    LeafInsert(t, e, lo, hi, UpperBound(Keys(t.entries), e.key));
    var l, r := LeafT(t.pid, n, es[..mid]), LeafT(n, t.next, es[mid..]);
    LeafSplitForest(pages0, n, t, after, es, mid, l, r);
    if Fits(t, e.key) {
      HasBoundary(es, e.key);
      LeafCut(l, r, es, mid, lo, hi);
    }
  }

  /** Everything known once the child's insert has been absorbed into the list of children. */
  ghost predicate Absorbed(pages0: Pages, n0: PageId, pages1: Pages, n1: PageId, t: Tree, e: Entry, h: nat,
                           after: PageId,
                           lo: Bound, hi: Bound, keys: seq<int>, kids: seq<Tree>) {
    && t.NodeT? && h >= 2 && n0 <= n1 && n1 as int < n0 as int + h
    && Forest(pages1, kids, h - 1, after, n1)
    && |kids| == |keys| + 1
    && First(kids[0]) == First(t)
    && Frame(pages0, pages1, Pids(t), n0)
    && (forall p :: p in PidsAll(kids) ==> p in Pids(t) || p >= n0)
    && 1 <= t.pid < n0 && t.pid !in PidsAll(kids) && t.pid in Pids(t)
    && FlatAll(kids) == InsertSorted(Flat(t), e)
    && (Fits(t, e.key) ==> RoutedAll(keys, kids, lo, hi) && FullAll(kids) && |keys| >= |t.keys|)
  }

  lemma Absorb(pages0: Pages, n0: PageId, pages1: Pages, n1: PageId, t: Tree, e: Entry, h: nat, after: PageId,
               lo: Bound, hi: Bound, idx: nat, split: Option<Split>, ts: seq<Tree>)
    requires t.NodeT? && Forest(pages0, [t], h, after, n0) && h >= 2
    requires Routed(t, lo, hi) && Within(e.key, lo, hi) && idx == UpperBound(t.keys, e.key) && idx < |t.kids|
    requires Inserted(pages0, n0, pages1, n1, t.kids[idx], e, h - 1, FirstAll(t.kids[idx + 1..], after),
                      LoAt(t.keys, lo, idx), HiAt(t.keys, hi, idx), split, ts)
    ensures Absorbed(pages0, n0, pages1, n1, t, e, h, after, lo, hi, NewKeys(t, idx, split), NewKids(t, idx, ts))
    ensures t.pid in pages0 && t.pid in pages1 && pages1[t.pid] == pages0[t.pid]
  {
    SingleForest(pages0, t, h, after, n0);
    AbsorbForest(pages0, n0, pages1, n1, t, e, h, after, LoAt(t.keys, lo, idx), HiAt(t.keys, hi, idx), idx, split, ts);
    AbsorbFlat(t, e, lo, hi, idx, ts);
    if Fits(t, e.key) {
      DescendFlat(t, lo, hi, e.key, idx);
      AbsorbRouted(t, e, lo, hi, idx, split, ts);
    }
  }

  ghost predicate ChildrenAre(node: Node, keys: seq<int>, kids: seq<Tree>) {
    && node.Internal? && node.keys == keys && |node.children| == |kids|
    && forall i :: 0 <= i < |kids| ==> node.children[i] == kids[i].pid
  }

  lemma ChildrenAfterInsert(t: Tree, node: Node, idx: nat, split: Option<Split>, ts: seq<Tree>)
    requires t.NodeT? && ChildrenAre(node, t.keys, t.kids) && idx < |t.kids| && idx <= |t.keys|
    requires |ts| == |Seps(split)| + 1 && ts[0].pid == t.kids[idx].pid
    requires split.Some? ==> ts[1].pid == split.value.rightPid
    ensures split.None? ==>
            ChildrenAre(node, NewKeys(t, idx, split), NewKids(t, idx, ts)) && NewKeys(t, idx, split) == t.keys
    ensures split.Some? ==>
              var children := node.children[..idx + 1] + [split.value.rightPid] + node.children[idx + 1..];
              ChildrenAre(Internal(NewKeys(t, idx, split), children), NewKeys(t, idx, split), NewKids(t, idx, ts))
  {
    if split.None? {
      assert NewKeys(t, idx, split) == t.keys;
    }
  }

  lemma NodeKept(pages0: Pages, n0: PageId, pages1: Pages, n1: PageId, t: Tree, e: Entry, h: nat, after: PageId,
                 lo: Bound, hi: Bound, keys: seq<int>, kids: seq<Tree>, node: Node)
    requires Absorbed(pages0, n0, pages1, n1, t, e, h, after, lo, hi, keys, kids)
    requires |keys| <= INTERNAL_MAX && Below(lo, hi) && |keys| >= |t.keys|
    requires ChildrenAre(node, keys, kids)
    ensures Inserted(pages0, n0, pages1[t.pid := node], n1, t, e, h, after, lo, hi, None, [NodeT(t.pid, keys, kids)])
  {
    var pages2, t1 := pages1[t.pid := node], NodeT(t.pid, keys, kids);
    ForestFrame(pages1, pages2, kids, h - 1, after, n1, {t.pid}, n1);
    NodeForest(pages2, t1, h - 1, after, n1);
    SingleForest(pages2, t1, h, after, n1);
  }

  lemma NodeSplit(pages0: Pages, n0: PageId, pages1: Pages, n1: PageId, t: Tree, e: Entry, h: nat, after: PageId,
                  lo: Bound, hi: Bound, keys: seq<int>, kids: seq<Tree>, node: Node, mid: nat)
    requires Absorbed(pages0, n0, pages1, n1, t, e, h, after, lo, hi, keys, kids)
    requires |keys| == INTERNAL_MAX + 1 && 1 <= mid < |keys| && n1 < INVALID_PAGE_ID
    requires Fits(t, e.key) ==> mid == |keys| / 2
    requires ChildrenAre(node, keys, kids)
    ensures Inserted(pages0, n0,
              pages1[n1 := Blank][t.pid := Internal(keys[..mid], node.children[..mid + 1])]
                    [n1 := Internal(keys[mid + 1..], node.children[mid + 1..])],
              n1 + 1, t, e, h, after, lo, hi, Some(Split(keys[mid], n1)),
              [NodeT(t.pid, keys[..mid], kids[..mid + 1]), NodeT(n1, keys[mid + 1..], kids[mid + 1..])])
  {
    var pages2 := pages1[n1 := Blank][t.pid := Internal(keys[..mid], node.children[..mid + 1])]
                        [n1 := Internal(keys[mid + 1..], node.children[mid + 1..])];
    ForestFrame(pages1, pages2, kids, h - 1, after, n1, {t.pid}, n1 + 1);
    NodeCut(pages2, t.pid, n1, keys, kids, mid, h - 1, after, n1 + 1);
    if Fits(t, e.key) {
      NodeCutRouted(t.pid, n1, keys, kids, mid, lo, hi);
    }
  }

  // ----- the root

  /** `t1` is the whole tree after the insert; it is routed exactly when the key had room. */
  ghost predicate NewRoot(pages1: Pages, n1: PageId, t: Tree, e: Entry, t1: Tree, h1: nat) {
    && Forest(pages1, [t1], h1, INVALID_PAGE_ID, n1)
    && Flat(t1) == InsertSorted(Flat(t), e)
    && (Routed(t1, NegInf, PosInf) && Size(t1) >= 1 <==> Fits(t, e.key))
  }

  /** No routed tree can hold more entries of one key than a leaf does. */
  lemma RoomIsNecessary(t: Tree, e: Entry, pages1: Pages, n1: PageId, t1: Tree, h1: nat)
    requires Routed(t, NegInf, PosInf) && Forest(pages1, [t1], h1, INVALID_PAGE_ID, n1)
    requires Flat(t1) == InsertSorted(Flat(t), e) && Routed(t1, NegInf, PosInf)
    ensures Fits(t, e.key)
  {
    SingleForest(pages1, t1, h1, INVALID_PAGE_ID, n1);
    KeyInOneLeaf(t1, h1, INVALID_PAGE_ID, NegInf, PosInf, e.key);
    RoutedFlat(t, NegInf, PosInf);
    SearchAfterInsert(Flat(t), e, e.key);
  }

  lemma RootKept(pages0: Pages, n0: PageId, pages1: Pages, n1: PageId, t: Tree, e: Entry, h: nat, ts: seq<Tree>)
    requires Routed(t, NegInf, PosInf) && Size(t) >= 1
    requires Inserted(pages0, n0, pages1, n1, t, e, h, INVALID_PAGE_ID, NegInf, PosInf, None, ts)
    ensures NewRoot(pages1, n1, t, e, ts[0], h)
  {
    assert ts == [ts[0]];
    SingleForest(pages1, ts[0], h, INVALID_PAGE_ID, n1);
    if Routed(ts[0], NegInf, PosInf) {
      RoomIsNecessary(t, e, pages1, n1, ts[0], h);
    }
  }

  lemma RootSplit(pages0: Pages, n0: PageId, pages1: Pages, n1: PageId, t: Tree, e: Entry, h: nat,
                  split: Option<Split>, ts: seq<Tree>)
    requires Routed(t, NegInf, PosInf) && split.Some? && h >= 1 && 1 <= n1 < INVALID_PAGE_ID
    requires Inserted(pages0, n0, pages1, n1, t, e, h, INVALID_PAGE_ID, NegInf, PosInf, split, ts)
    ensures NewRoot(pages1[n1 := Blank][n1 := Internal(Seps(split), [t.pid, split.value.rightPid])][0 := Header(n1)],
            n1 + 1,
                    t, e, NodeT(n1, Seps(split), ts), h + 1)
  {
    var pages2 := pages1[n1 := Blank][n1 := Internal(Seps(split), [t.pid, split.value.rightPid])][0 := Header(n1)];
    var t1 := NodeT(n1, Seps(split), ts);
    ForestFrame(pages1, pages2, ts, h, INVALID_PAGE_ID, n1, {0}, n1 + 1);
    NodeForest(pages2, t1, h, INVALID_PAGE_ID, n1 + 1);
    if Routed(t1, NegInf, PosInf) {
      RoomIsNecessary(t, e, pages2, n1 + 1, t1, h + 1);
    }
  }

  lemma RootCreated(pages0: Pages, n: PageId, e: Entry)
    requires 1 <= n < INVALID_PAGE_ID
    ensures var t1 := LeafT(n, INVALID_PAGE_ID, [e]);
            && Forest(pages0[n := Blank][n := Leaf(INVALID_PAGE_ID, [e])][0 := Header(n)], [t1], 1, INVALID_PAGE_ID, n +
                1)
            && Routed(t1, NegInf, PosInf) && InsertSorted([], e) == Flat(t1)
  {
    SingleForest(pages0[n := Blank][n := Leaf(INVALID_PAGE_ID, [e])][0 := Header(n)], LeafT(n, INVALID_PAGE_ID, [e]),
                 1, INVALID_PAGE_ID, n + 1);
  }
}
