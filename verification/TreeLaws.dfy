/**
 Laws of routed forests: descending by a key, cutting a run of siblings out,
 putting another in its place, and the counting arguments that bound the height
 of a tree and the number of equal keys it can hold.
 */
module TreeLaws {
  import opened Seqs
  import opened Entries
  import opened TreeShape

  /** std::upper_bound: the number of leading keys that are <= key. */
  function UpperBound(keys: seq<int>, key: int): (r: nat)
    ensures r <= |keys|
    ensures forall i :: 0 <= i < r ==> keys[i] <= key
    ensures r < |keys| ==> keys[r] > key
  {
    if keys == [] || keys[0] > key then 0 else 1 + UpperBound(keys[1..], key)
  }

  function Keys(es: seq<Entry>): (r: seq<int>)
    ensures |r| == |es| && forall i :: 0 <= i < |es| ==> r[i] == es[i].key
  {
    seq(|es|, i requires 0 <= i < |es| => es[i].key)
  }

  /** The child that upper_bound picks is the only one that can hold the key. */
  lemma {:induction false} RouteTo(keys: seq<int>, kids: seq<Tree>, lo: Bound, hi: Bound, key: int, idx: nat)
    requires RoutedAll(keys, kids, lo, hi) && Within(key, lo, hi)
    requires idx == UpperBound(keys, key)
    ensures idx < |kids|
    ensures Routed(kids[idx], LoAt(keys, lo, idx), HiAt(keys, hi, idx))
    ensures Within(key, LoAt(keys, lo, idx), HiAt(keys, hi, idx))
    ensures AllBelow(FlatAll(kids[..idx]), key) && AllAbove(FlatAll(kids[idx + 1..]), key)
    decreases kids
  {
    if idx == 0 {
      assert kids[..0] == [];
      if keys != [] {
        RoutedAllFlat(keys[1..], kids[1..], Fin(keys[0]), hi);
      } else {
        assert kids[1..] == [];
      }
    } else {
      RoutedFlat(kids[0], lo, Fin(keys[0]));
      RouteTo(keys[1..], kids[1..], Fin(keys[0]), hi, key, idx - 1);
      assert kids[..idx] == [kids[0]] + kids[1..][..idx - 1];
      assert kids[..idx][1..] == kids[1..][..idx - 1];
      assert kids[idx + 1..] == kids[1..][idx..];
    }
  }

  /** A run of siblings is routed between the separators on its two sides. */
  lemma {:induction false} RoutedSlice(keys: seq<int>, kids: seq<Tree>, lo: Bound, hi: Bound, i: nat, j: nat)
    requires RoutedAll(keys, kids, lo, hi) && i < j <= |kids|
    ensures RoutedAll(keys[i..j - 1], kids[i..j], LoAt(keys, lo, i), HiAt(keys, hi, j - 1))
    decreases kids
  {
    if i == 0 {
      if j == |kids| {
        assert keys[0..j - 1] == keys && kids[0..j] == kids;
      } else {
        assert keys == keys[..j - 1] + [keys[j - 1]] + keys[j..];
        assert kids == kids[..j] + kids[j..];
        RoutedAllJoin(keys[..j - 1], kids[..j], keys[j - 1], keys[j..], kids[j..], lo, hi);
      }
    } else {
      RoutedSlice(keys[1..], kids[1..], Fin(keys[0]), hi, i - 1, j - 1);
      assert keys[1..][i - 1..j - 2] == keys[i..j - 1];
      assert kids[1..][i - 1..j - 1] == kids[i..j];
    }
  }

  lemma RoutedSplicePrefix(keys: seq<int>, kids: seq<Tree>, lo: Bound, hi: Bound, j: nat,
                           mk: seq<int>, mt: seq<Tree>)
    requires RoutedAll(keys, kids, lo, hi) && 0 < j <= |kids|
    requires RoutedAll(mk, mt, lo, HiAt(keys, hi, j - 1))
    ensures RoutedAll(mk + keys[j - 1..], mt + kids[j..], lo, hi)
  {
    if j == |kids| {
      assert mk + keys[j - 1..] == mk && mt + kids[j..] == mt;
    } else {
      assert keys == keys[..j - 1] + [keys[j - 1]] + keys[j..];
      assert kids == kids[..j] + kids[j..];
      RoutedAllJoin(keys[..j - 1], kids[..j], keys[j - 1], keys[j..], kids[j..], lo, hi);
      RoutedAllJoin(mk, mt, keys[j - 1], keys[j..], kids[j..], lo, hi);
      assert mk + keys[j - 1..] == mk + [keys[j - 1]] + keys[j..];
    }
  }

  lemma SpliceSlices<T>(s: seq<T>, i: nat, m: seq<T>, j: nat)
    requires 0 < i <= j <= |s|
    ensures s[i..][j - i..] == s[j..]
    ensures s[..i - 1] + [s[i - 1]] + (m + s[j..]) == s[..i] + m + s[j..]
    ensures s[..i] + (m + s[j..]) == s[..i] + m + s[j..]
  {
    assert s[..i - 1] + [s[i - 1]] == s[..i];
    ConcatAssoc(s[..i], m, s[j..]);
  }

  /** Replacing a run of siblings by another run with the same outer bounds keeps routing. */
  lemma RoutedSplice(keys: seq<int>, kids: seq<Tree>, lo: Bound, hi: Bound, i: nat, j: nat, mk: seq<int>, mt: seq<Tree>)
    requires RoutedAll(keys, kids, lo, hi) && i < j <= |kids|
    requires RoutedAll(mk, mt, LoAt(keys, lo, i), HiAt(keys, hi, j - 1))
    ensures RoutedAll(keys[..i] + mk + keys[j - 1..], kids[..i] + mt + kids[j..], lo, hi)
  {
    if i == 0 {
      RoutedSplicePrefix(keys, kids, lo, hi, j, mk, mt);
      assert keys[..i] + mk + keys[j - 1..] == mk + keys[j - 1..];
      assert kids[..i] + mt + kids[j..] == mt + kids[j..];
    } else {
      RoutedSpliceLater(keys, kids, lo, hi, i, j, mk, mt);
    }
  }

  lemma RoutedSpliceLater(keys: seq<int>, kids: seq<Tree>, lo: Bound, hi: Bound, i: nat, j: nat,
                          mk: seq<int>, mt: seq<Tree>)
    requires RoutedAll(keys, kids, lo, hi) && 0 < i < j <= |kids|
    requires RoutedAll(mk, mt, LoAt(keys, lo, i), HiAt(keys, hi, j - 1))
    ensures RoutedAll(keys[..i] + mk + keys[j - 1..], kids[..i] + mt + kids[j..], lo, hi)
  {
    assert keys == keys[..i - 1] + [keys[i - 1]] + keys[i..] && kids == kids[..i] + kids[i..];
    RoutedAllJoin(keys[..i - 1], kids[..i], keys[i - 1], keys[i..], kids[i..], lo, hi);
    RoutedSplicePrefix(keys[i..], kids[i..], Fin(keys[i - 1]), hi, j - i, mk, mt);
    SpliceSlices(keys, i, mk, j - 1);
    SpliceSlices(kids, i, mt, j);
    RoutedAllJoin(keys[..i - 1], kids[..i], keys[i - 1], mk + keys[j - 1..], mt + kids[j..], lo, hi);
  }

  /** One subtree as a forest. */
  lemma SingleForest(pages: Pages, t: Tree, h: nat, after: PageId, n: PageId)
    ensures Forest(pages, [t], h, after, n) <==>
            Rep(pages, t) && Distinct(t) && Shape(t, h, after) && InRange(Pids(t), n)
    ensures PidsAll([t]) == Pids(t)
    ensures FlatAll([t]) == Flat(t)
  {
    assert [t][1..] == [];
    assert Flat(t) + [] == Flat(t);
    assert PidsAll([t]) == Pids(t);
    assert ShapeAll([t], h, after) <==> Shape(t, h, after);
    assert DistinctAll([t]) <==> Distinct(t);
    assert RepAll(pages, [t]) <==> Rep(pages, t);
  }

  /** A forest falls apart into its pieces. */
  lemma ForestSplit(pages: Pages, a: seq<Tree>, b: seq<Tree>, h: nat, after: PageId, n: PageId)
    ensures Forest(pages, a + b, h, after, n) <==>
            Forest(pages, a, h, FirstAll(b, after), n) && Forest(pages, b, h, after, n) && PidsAll(a) !! PidsAll(b)
  {
    PidsAllAppend(a, b);
    DistinctAllAppend(a, b);
    RepAllAppend(pages, a, b);
    ShapeAllAppend(a, b, h, after);
  }

  lemma ForestFrame(pages0: Pages, pages1: Pages, ts: seq<Tree>, h: nat, after: PageId, n: PageId, touched: set<PageId>,
                    n1: PageId)
    requires Forest(pages0, ts, h, after, n) && n <= n1
    requires Frame(pages0, pages1, touched, n) && PidsAll(ts) !! touched
    ensures Forest(pages1, ts, h, after, n1)
  {
    RepAllFrame(pages0, pages1, ts, touched, n);
  }

  /** Rewriting the run `m` as `m1` (old pages of `m` or fresh ones) leaves its neighbours in place. */
  lemma ForestSplice(pages0: Pages, pages1: Pages, a: seq<Tree>, m: seq<Tree>, c: seq<Tree>, m1: seq<Tree>,
                     h: nat, after: PageId, n0: PageId, n1: PageId)
    requires Forest(pages0, a + m + c, h, after, n0) && n0 <= n1
    requires m != [] && m1 != [] && First(m1[0]) == First(m[0])
    requires Forest(pages1, m1, h, FirstAll(c, after), n1)
    requires forall p :: p in PidsAll(m1) ==> p in PidsAll(m) || p >= n0
    requires Frame(pages0, pages1, PidsAll(m), n0)
    ensures Forest(pages1, a + m1 + c, h, after, n1)
    ensures forall p :: p in PidsAll(a + m1 + c) ==> p in PidsAll(a + m + c) || p >= n0
    ensures First((a + m1 + c)[0]) == First((a + m + c)[0])
  {
    assert a + m + c == a + (m + c);
    assert a + m1 + c == a + (m1 + c);
    ForestSplit(pages0, a, m + c, h, after, n0);
    ForestSplit(pages0, m, c, h, after, n0);
    PidsAllAppend(m, c);
    PidsAllAppend(m1, c);
    PidsAllAppend(a, m + c);
    PidsAllAppend(a, m1 + c);
    assert FirstAll(m + c, after) == FirstAll(m1 + c, after);
    ForestFrame(pages0, pages1, a, h, FirstAll(m + c, after), n0, PidsAll(m), n1);
    ForestFrame(pages0, pages1, c, h, after, n0, PidsAll(m), n1);
    assert PidsAll(m1) !! PidsAll(c);
    ForestSplit(pages1, m1, c, h, after, n1);
    assert PidsAll(a) !! PidsAll(m1 + c);
    ForestSplit(pages1, a, m1 + c, h, after, n1);
  }

  lemma FlatSplice(a: seq<Tree>, m: seq<Tree>, c: seq<Tree>)
    ensures FlatAll(a + m + c) == FlatAll(a) + FlatAll(m) + FlatAll(c)
  {
    FlatAllAppend(a + m, c);
    FlatAllAppend(a, m);
  }

  /** Putting a page on top of a forest. */
  lemma NodeForest(pages: Pages, t: Tree, h: nat, after: PageId, n: PageId)
    requires t.NodeT? && Forest(pages, t.kids, h, after, n)
    requires 1 <= t.pid < n && t.pid !in PidsAll(t.kids)
    requires |t.keys| <= INTERNAL_MAX && |t.kids| == |t.keys| + 1 && h >= 1
    requires t.pid in pages && pages[t.pid].Internal? && pages[t.pid].keys == t.keys
    requires |pages[t.pid].children| == |t.kids|
    requires forall i :: 0 <= i < |t.kids| ==> pages[t.pid].children[i] == t.kids[i].pid
    ensures Forest(pages, [t], h + 1, after, n)
    ensures First(t) == First(t.kids[0])
    ensures PidsAll([t]) == {t.pid} + PidsAll(t.kids)
  {
    SingleForest(pages, t, h + 1, after, n);
  }

  // ----- the leaf chain

  ghost function Leaves(t: Tree): seq<Tree>
    decreases t, 1
  {
    match t
    case LeafT(_, _, _) => [t]
    case NodeT(_, _, kids) => LeavesAll(kids)
  }

  ghost function LeavesAll(ts: seq<Tree>): seq<Tree>
    decreases ts, 0
  {
    if ts == [] then [] else Leaves(ts[0]) + LeavesAll(ts[1..])
  }

  /** Leaf pages linked to one another in this order, the last one to `after`. */
  ghost predicate Chained(pages: Pages, ls: seq<Tree>, after: PageId) {
    ls == [] || (
      && ls[0].LeafT? && ls[0].pid in pages && ls[0].pid != INVALID_PAGE_ID
      && pages[ls[0].pid] == Leaf(if |ls| > 1 then ls[1].pid else after, ls[0].entries)
      && Chained(pages, ls[1..], after))
  }

  lemma {:induction false} ChainedAppend(pages: Pages, a: seq<Tree>, b: seq<Tree>, after: PageId)
    requires Chained(pages, a, if b == [] then after else b[0].pid) && Chained(pages, b, after)
    ensures Chained(pages, a + b, after)
  {
    if a == [] {
      assert a + b == b;
    } else {
      ChainedAppend(pages, a[1..], b, after);
      assert (a + b)[1..] == a[1..] + b;
    }
  }

  /** The next-leaf chain is the in-order sequence of the tree's leaves. */
  lemma {:induction false} LeavesChained(pages: Pages, t: Tree, h: nat, after: PageId)
    requires Rep(pages, t) && Shape(t, h, after) && INVALID_PAGE_ID !in Pids(t)
    ensures Leaves(t) != [] && Leaves(t)[0].pid == First(t)
    ensures Chained(pages, Leaves(t), after) && FlatAll(Leaves(t)) == Flat(t)
    decreases t, 1
  {
    if t.NodeT? {
      LeavesAllChained(pages, t.kids, h - 1, after);
    } else {
      assert [t][1..] == [];
      assert Flat(t) + [] == Flat(t);
    }
  }

  lemma {:induction false} LeavesAllChained(pages: Pages, ts: seq<Tree>, h: nat, after: PageId)
    requires RepAll(pages, ts) && ShapeAll(ts, h, after) && INVALID_PAGE_ID !in PidsAll(ts)
    ensures ts != [] ==> LeavesAll(ts) != [] && LeavesAll(ts)[0].pid == First(ts[0])
    ensures Chained(pages, LeavesAll(ts), after) && FlatAll(LeavesAll(ts)) == FlatAll(ts)
    decreases ts, 0
  {
    if ts != [] {
      var rest := ts[1..];
      LeavesChained(pages, ts[0], h, FirstAll(rest, after));
      LeavesAllChained(pages, rest, h, after);
      ChainedAppend(pages, Leaves(ts[0]), LeavesAll(rest), after);
      FlatAllAppend(Leaves(ts[0]), LeavesAll(rest));
    }
  }

  // ----- how many equal keys a routed tree can hold

  /** The contents seen from one child: smaller keys, the child's, larger keys. */
  lemma DescendFlat(t: Tree, lo: Bound, hi: Bound, key: int, idx: nat)
    requires t.NodeT? && Routed(t, lo, hi) && Within(key, lo, hi) && idx == UpperBound(t.keys, key)
    ensures idx < |t.kids|
    ensures Flat(t) == FlatAll(t.kids[..idx]) + Flat(t.kids[idx]) + FlatAll(t.kids[idx + 1..])
    ensures AllBelow(FlatAll(t.kids[..idx]), key) && AllAbove(FlatAll(t.kids[idx + 1..]), key)
    ensures RidsUnder(Flat(t), key) == RidsUnder(Flat(t.kids[idx]), key)
  {
    RouteTo(t.keys, t.kids, lo, hi, key, idx);
    var a, m, c := t.kids[..idx], t.kids[idx], t.kids[idx + 1..];
    assert t.kids == a + [m] + c;
    FlatSplice(a, [m], c);
    SingleForest(map[], m, 0, 0, 0);
    RidsUnderAppend(FlatAll(a) + Flat(m), FlatAll(c), key);
    RidsUnderAppend(FlatAll(a), Flat(m), key);
    RidsUnderNone(FlatAll(a), key);
    RidsUnderNone(FlatAll(c), key);
  }

  lemma ShapeAt(ts: seq<Tree>, h: nat, after: PageId, idx: nat)
    requires ShapeAll(ts, h, after) && idx < |ts|
    ensures Shape(ts[idx], h, FirstAll(ts[idx + 1..], after))
  {
    assert ts == ts[..idx] + ts[idx..];
    ShapeAllAppend(ts[..idx], ts[idx..], h, after);
  }

  lemma {:induction false} KeyInOneLeaf(t: Tree, h: nat, after: PageId, lo: Bound, hi: Bound, k: int)
    requires Shape(t, h, after) && Routed(t, lo, hi) && Within(k, lo, hi)
    ensures CountKey(Flat(t), k) <= LEAF_MAX
    decreases t
  {
    match t
    case LeafT(_, _, _) =>
    case NodeT(_, keys, kids) =>
      var idx := UpperBound(keys, k);
      RouteTo(keys, kids, lo, hi, k, idx);
      DescendFlat(t, lo, hi, k, idx);
      ShapeAt(kids, h - 1, after, idx);
      KeyInOneLeaf(kids[idx], h - 1, FirstAll(kids[idx + 1..], after), LoAt(keys, lo, idx), HiAt(keys, hi, idx), k);
  }

  // ----- the one leaf a search visits

  /** The entries of the leaf that upper_bound leads to. */
  ghost function Reached(t: Tree, key: int): seq<Entry>
    decreases t
  {
    match t
    case LeafT(_, _, es) => es
    case NodeT(_, keys, kids) =>
      var idx := UpperBound(keys, key);
      if idx < |kids| then Reached(kids[idx], key) else []
  }

  /** In a routed tree that leaf has every entry of the key. */
  lemma {:induction false} ReachedIsAll(t: Tree, lo: Bound, hi: Bound, key: int)
    requires Routed(t, lo, hi) && Within(key, lo, hi)
    ensures RidsUnder(Reached(t, key), key) == RidsUnder(Flat(t), key)
    decreases t
  {
    if t.NodeT? {
      var idx := UpperBound(t.keys, key);
      RouteTo(t.keys, t.kids, lo, hi, key, idx);
      DescendFlat(t, lo, hi, key, idx);
      ReachedIsAll(t.kids[idx], LoAt(t.keys, lo, idx), HiAt(t.keys, hi, idx), key);
    }
  }

  /** What it has is stored. */
  lemma {:induction false} ReachedIsStored(t: Tree, key: int, e: Entry)
    requires e in Reached(t, key)
    ensures e in Flat(t)
    decreases t
  {
    if t.NodeT? {
      var idx := UpperBound(t.keys, key);
      ReachedIsStored(t.kids[idx], key, e);
      assert t.kids == t.kids[..idx] + ([t.kids[idx]] + t.kids[idx + 1..]);
      FlatAllAppend(t.kids[..idx], [t.kids[idx]] + t.kids[idx + 1..]);
      FlatAllAppend([t.kids[idx]], t.kids[idx + 1..]);
      assert [t.kids[idx]][1..] == [];
      assert FlatAll([t.kids[idx]]) == Flat(t.kids[idx]) + [];
    }
  }

  /** In any tree it holds no more than a page does. */
  lemma {:induction false} ReachedFits(t: Tree, h: nat, after: PageId, key: int)
    requires Shape(t, h, after)
    ensures |Reached(t, key)| <= LEAF_MAX
    decreases t
  {
    if t.NodeT? {
      var idx := UpperBound(t.keys, key);
      ShapeAt(t.kids, h - 1, after, idx);
      ReachedFits(t.kids[idx], h - 1, FirstAll(t.kids[idx + 1..], after), key);
    }
  }

  // ----- how many pages a tree of a given height needs

  function Pow170(n: nat): nat {
    if n == 0 then 1 else 170 * Pow170(n - 1)
  }

  lemma MulMonotone(a: nat, b: nat, c: nat)
    requires a >= b
    ensures a * c >= b * c
  {
    assert (a - b) * c >= 0;
  }

  lemma OneTimesMore(n: nat, p: nat)
    ensures (n + 1) * p == p + n * p
  {
  }

  /** A non-root subtree of height h has at least 170^(h-1) pages. */
  lemma {:induction false} PagesOfSubtree(t: Tree, h: nat, after: PageId, lo: Bound, hi: Bound)
    requires Shape(t, h, after) && Routed(t, lo, hi) && Distinct(t) && Full(t)
    ensures h >= 1 && |Pids(t)| >= Pow170(h - 1)
    decreases t, 1
  {
    if t.NodeT? {
      PagesOfForest(t.keys, t.kids, h - 1, after, lo, hi);
      MulMonotone(|t.kids|, 170, Pow170(h - 2));
      assert Pids(t) == PidsAll(t.kids) + {t.pid};
    }
  }

  lemma {:induction false} PagesOfForest(keys: seq<int>, ts: seq<Tree>, h: nat, after: PageId, lo: Bound, hi: Bound)
    requires ShapeAll(ts, h, after) && RoutedAll(keys, ts, lo, hi) && DistinctAll(ts) && FullAll(ts)
    ensures h >= 1 && |PidsAll(ts)| >= |ts| * Pow170(h - 1)
    decreases ts, 0
  {
    if keys == [] {
      PagesOfSubtree(ts[0], h, FirstAll(ts[1..], after), lo, hi);
      assert PidsAll(ts) == Pids(ts[0]);
    } else {
      PagesOfSubtree(ts[0], h, FirstAll(ts[1..], after), lo, Fin(keys[0]));
      PagesOfForest(keys[1..], ts[1..], h, after, Fin(keys[0]), hi);
      assert |PidsAll(ts)| == |Pids(ts[0])| + |PidsAll(ts[1..])|;
      OneTimesMore(|ts[1..]|, Pow170(h - 1));
    }
  }

  lemma {:induction false} PidsBounded(s: set<PageId>, n: PageId)
    requires forall p :: p in s ==> 1 <= p < n
    ensures |s| <= n as int
    decreases n
  {
    if n > 1 {
      PidsBounded(s - {n - 1}, n - 1);
    }
    else {
      assert s == {};
    }
  }

  lemma {:induction false} Pow170Monotone(m: nat, n: nat)
    requires m <= n
    ensures Pow170(m) <= Pow170(n)
    decreases n - m
  {
    if m < n {
      Pow170Monotone(m, n - 1);
    }
  }

  lemma Pow170Five()
    ensures Pow170(5) == 141985700000
  {
    assert Pow170(3) == 170 * (170 * Pow170(1));
  }

  /** A tree over fewer than 2^32 pages is at most six levels high. */
  lemma HeightAtMostSix(pages: Pages, t: Tree, h: nat, n: PageId)
    requires Forest(pages, [t], h, INVALID_PAGE_ID, n) && n <= INVALID_PAGE_ID
    requires Routed(t, NegInf, PosInf) && (t.NodeT? ==> |t.keys| >= 1)
    ensures 1 <= h <= 6
  {
    SingleForest(pages, t, h, INVALID_PAGE_ID, n);
    Pow170Five();
    if t.NodeT? && h > 6 {
      PagesOfForest(t.keys, t.kids, h - 1, INVALID_PAGE_ID, NegInf, PosInf);
      Pow170Monotone(5, h - 2);
      MulMonotone(|t.kids|, 2, Pow170(h - 2));
      PidsBounded(PidsAll(t.kids), n);
    }
  }
}
