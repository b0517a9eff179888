/**
 The structure of an on-disk B+-tree: the pages that make it up, the tree they
 represent, and the invariants the index relies on (src/index/btree.cpp:11-26).
 */
module TreeShape {
  import opened Seqs
  import opened Bytes
  import opened Entries

  /** uint32_t; the largest value marks "no page" (src/common/config.h). */
  newtype PageId = p: int | 0 <= p <= 0xFFFF_FFFF

  const INVALID_PAGE_ID: PageId := 0xFFFF_FFFF
  const LEAF_MAX: nat := (PAGE_SIZE - 16) / 14            // 291
  const LEAF_MIN: nat := LEAF_MAX / 2                     // 145
  const INTERNAL_MAX: nat := (PAGE_SIZE - 16 - 4) / 12    // 339
  const INTERNAL_MIN: nat := INTERNAL_MAX / 2             // 169

  /** What one page of the index file holds. */
  datatype Node =
    | Blank
    | Header(root: PageId)
    | Leaf(next: PageId, entries: seq<Entry>)
    | Internal(keys: seq<int>, children: seq<PageId>)

  type Pages = map<PageId, Node>

  /** The tree a page store represents, with every node's page id. */
  datatype Tree =
    | LeafT(pid: PageId, next: PageId, entries: seq<Entry>)
    | NodeT(pid: PageId, keys: seq<int>, kids: seq<Tree>)

  /** Routing bounds: a subtree holds keys k with lo <= k < hi. */
  datatype Bound = NegInf | Fin(k: int) | PosInf

  predicate Below(a: Bound, b: Bound) {
    match (a, b)
    case (Fin(x), Fin(y)) => x < y
    case (NegInf, _) => !b.NegInf?
    case (_, PosInf) => !a.PosInf?
    case _ => false
  }

  predicate Within(k: int, lo: Bound, hi: Bound) {
    !Below(Fin(k), lo) && Below(Fin(k), hi)
  }

  // ----- what a tree stores

  ghost function Flat(t: Tree): seq<Entry>
    decreases t, 1
  {
    match t
    case LeafT(_, _, es) => es
    case NodeT(_, _, kids) => FlatAll(kids)
  }

  ghost function FlatAll(ts: seq<Tree>): seq<Entry>
    decreases ts, 0
  {
    if ts == [] then [] else Flat(ts[0]) + FlatAll(ts[1..])
  }

  // ----- where it is stored

  ghost function Pids(t: Tree): set<PageId>
    decreases t, 1
  {
    match t
    case LeafT(p, _, _) => {p}
    case NodeT(p, _, kids) => {p} + PidsAll(kids)
  }

  ghost function PidsAll(ts: seq<Tree>): set<PageId>
    decreases ts, 0
  {
    if ts == [] then {} else Pids(ts[0]) + PidsAll(ts[1..])
  }

  /** No page is used twice. */
  ghost predicate Distinct(t: Tree)
    decreases t, 1
  {
    t.NodeT? ==> t.pid !in PidsAll(t.kids) && DistinctAll(t.kids)
  }

  ghost predicate DistinctAll(ts: seq<Tree>)
    decreases ts, 0
  {
    ts == [] || (Distinct(ts[0]) && Pids(ts[0]) !! PidsAll(ts[1..]) && DistinctAll(ts[1..]))
  }

  /** The pages hold exactly the nodes of `t`. */
  ghost predicate Rep(pages: Pages, t: Tree)
    decreases t, 1
  {
    && t.pid in pages
    && match t
       case LeafT(p, next, es) => pages[p] == Leaf(next, es)
       case NodeT(p, keys, kids) =>
         && pages[p].Internal?
         && pages[p].keys == keys
         && |pages[p].children| == |kids|
         && (forall i :: 0 <= i < |kids| ==> pages[p].children[i] == kids[i].pid)
         && RepAll(pages, kids)
  }

  ghost predicate RepAll(pages: Pages, ts: seq<Tree>)
    decreases ts, 0
  {
    ts == [] || (Rep(pages, ts[0]) && RepAll(pages, ts[1..]))
  }

  // ----- shape: uniform depth, node capacities, next-leaf chain

  /** Page of the leftmost leaf. */
  ghost function First(t: Tree): PageId
    decreases t, 1
  {
    match t
    case LeafT(p, _, _) => p
    case NodeT(_, _, kids) => FirstAll(kids, INVALID_PAGE_ID)
  }

  ghost function FirstAll(ts: seq<Tree>, after: PageId): PageId
    decreases ts, 0
  {
    if ts == [] then after else First(ts[0])
  }

  /** `t` has height `h`, no node over its page, and its last leaf is chained to `after`. */
  ghost predicate Shape(t: Tree, h: nat, after: PageId)
    decreases t, 1
  {
    match t
    case LeafT(_, next, es) => h == 1 && |es| <= LEAF_MAX && next == after
    case NodeT(_, keys, kids) =>
      && h >= 2
      && |keys| <= INTERNAL_MAX
      && |kids| == |keys| + 1
      && ShapeAll(kids, h - 1, after)
  }

  ghost predicate ShapeAll(ts: seq<Tree>, h: nat, after: PageId)
    decreases ts, 0
  {
    ts == [] || (Shape(ts[0], h, FirstAll(ts[1..], after)) && ShapeAll(ts[1..], h, after))
  }

  // ----- routing

  ghost predicate Full(t: Tree) {
    match t
    case LeafT(_, _, es) => es != []
    case NodeT(_, keys, _) => |keys| >= INTERNAL_MIN
  }

  ghost predicate FullAll(ts: seq<Tree>) {
    forall i :: 0 <= i < |ts| ==> Full(ts[i])
  }

  /** children[i] holds keys in [keys[i-1], keys[i]); separators strictly increase. */
  ghost predicate Routed(t: Tree, lo: Bound, hi: Bound)
    decreases t, 1
  {
    && Below(lo, hi)
    && match t
       case LeafT(_, _, es) => Sorted(es) && forall i :: 0 <= i < |es| ==> Within(es[i].key, lo, hi)
       case NodeT(_, keys, kids) => FullAll(kids) && RoutedAll(keys, kids, lo, hi)
  }

  ghost predicate RoutedAll(keys: seq<int>, ts: seq<Tree>, lo: Bound, hi: Bound)
    decreases ts, 0
  {
    && |ts| == |keys| + 1
    && if keys == [] then Routed(ts[0], lo, hi)
       else Routed(ts[0], lo, Fin(keys[0])) && RoutedAll(keys[1..], ts[1..], Fin(keys[0]), hi)
  }

  // ----- bundles

  /** A run of sibling subtrees laid out in `pages`, in pages 1 .. n-1. */
  ghost predicate Forest(pages: Pages, ts: seq<Tree>, h: nat, after: PageId, n: PageId) {
    && RepAll(pages, ts)
    && DistinctAll(ts)
    && ShapeAll(ts, h, after)
    && InRange(PidsAll(ts), n)
  }

  /** Page 0 is the header; pages from `n` on are not allocated yet. */
  ghost predicate InRange(s: set<PageId>, n: PageId) {
    forall p :: p in s ==> 1 <= p < n
  }

  /** `pages1` differs from `pages0` at most on `touched` and on pages from `n` on. */
  ghost predicate Frame(pages0: Pages, pages1: Pages, touched: set<PageId>, n: PageId) {
    forall p :: p in pages0 && p < n && p !in touched ==> p in pages1 && pages1[p] == pages0[p]
  }

  ghost function LoAt(keys: seq<int>, lo: Bound, i: nat): Bound
    requires i <= |keys|
  {
    if i == 0 then lo else Fin(keys[i - 1])
  }

  ghost function HiAt(keys: seq<int>, hi: Bound, i: nat): Bound
    requires i <= |keys|
  {
    if i == |keys| then hi else Fin(keys[i])
  }

  // ----- concatenation laws: every forest predicate splits over ++

  lemma {:induction false} FlatAllAppend(a: seq<Tree>, b: seq<Tree>)
    ensures FlatAll(a + b) == FlatAll(a) + FlatAll(b)
  {
    if a == [] {
      assert a + b == b && [] + FlatAll(b) == FlatAll(b);
    } else {
      FlatAllAppend(a[1..], b);
      ConcatAssoc(Flat(a[0]), FlatAll(a[1..]), FlatAll(b));
      assert a + b != [] && (a + b)[0] == a[0] && (a + b)[1..] == a[1..] + b;
      calc {
        FlatAll(a + b);
        Flat(a[0]) + FlatAll(a[1..] + b);
        FlatAll(a) + FlatAll(b);
      }
    }
  }

  lemma {:induction false} PidsAllAppend(a: seq<Tree>, b: seq<Tree>)
    ensures PidsAll(a + b) == PidsAll(a) + PidsAll(b)
  {
    if a == [] {
      assert a + b == b;
    } else {
      PidsAllAppend(a[1..], b);
      assert (a + b)[1..] == a[1..] + b;
    }
  }

  lemma {:induction false} DistinctAllAppend(a: seq<Tree>, b: seq<Tree>)
    ensures DistinctAll(a + b) <==> DistinctAll(a) && DistinctAll(b) && PidsAll(a) !! PidsAll(b)
  {
    if a == [] {
      assert a + b == b;
    } else {
      DistinctAllAppend(a[1..], b);
      PidsAllAppend(a[1..], b);
      assert (a + b)[1..] == a[1..] + b;
    }
  }

  lemma {:induction false} RepAllAppend(pages: Pages, a: seq<Tree>, b: seq<Tree>)
    ensures RepAll(pages, a + b) <==> RepAll(pages, a) && RepAll(pages, b)
  {
    if a == [] {
      assert a + b == b;
    } else {
      RepAllAppend(pages, a[1..], b);
      assert (a + b)[1..] == a[1..] + b;
    }
  }

  lemma {:induction false} ShapeAllAppend(a: seq<Tree>, b: seq<Tree>, h: nat, after: PageId)
    ensures ShapeAll(a + b, h, after) <==> ShapeAll(a, h, FirstAll(b, after)) && ShapeAll(b, h, after)
  {
    if a == [] {
      assert a + b == b;
    } else {
      ShapeAllAppend(a[1..], b, h, after);
      assert (a + b)[1..] == a[1..] + b;
    }
  }

  /** Two routed runs meet at separator `s` exactly when their concatenation is routed. */
  lemma {:induction false} RoutedAllJoin(ka: seq<int>, a: seq<Tree>, s: int, kb: seq<int>, b: seq<Tree>, lo: Bound,
                                         hi: Bound)
    requires |a| == |ka| + 1 && |b| == |kb| + 1
    ensures RoutedAll(ka + [s] + kb, a + b, lo, hi) <==>
            RoutedAll(ka, a, lo, Fin(s)) && RoutedAll(kb, b, Fin(s), hi)
  {
    var k := ka + [s] + kb;
    if ka == [] {
      assert k[1..] == kb && (a + b)[1..] == b;
    } else {
      RoutedAllJoin(ka[1..], a[1..], s, kb, b, Fin(ka[0]), hi);
      assert k[1..] == ka[1..] + [s] + kb && (a + b)[1..] == a[1..] + b;
    }
  }

  // ----- framing

  lemma {:induction false} RepFrame(pages0: Pages, pages1: Pages, t: Tree, touched: set<PageId>, n: PageId)
    requires Rep(pages0, t) && Frame(pages0, pages1, touched, n)
    requires Pids(t) !! touched && forall p :: p in Pids(t) ==> p < n
    ensures Rep(pages1, t)
    decreases t, 1
  {
    if t.NodeT? {
      RepAllFrame(pages0, pages1, t.kids, touched, n);
    }
  }

  lemma {:induction false} RepAllFrame(pages0: Pages, pages1: Pages, ts: seq<Tree>, touched: set<PageId>, n: PageId)
    requires RepAll(pages0, ts) && Frame(pages0, pages1, touched, n)
    requires PidsAll(ts) !! touched && forall p :: p in PidsAll(ts) ==> p < n
    ensures RepAll(pages1, ts)
    decreases ts, 0
  {
    if ts != [] {
      RepFrame(pages0, pages1, ts[0], touched, n);
      RepAllFrame(pages0, pages1, ts[1..], touched, n);
    }
  }

  /** The pages determine the tree. */
  lemma {:induction false} RepUnique(pages: Pages, t: Tree, u: Tree)
    requires Rep(pages, t) && Rep(pages, u) && t.pid == u.pid
    ensures t == u
    decreases t, 1
  {
    if t.NodeT? {
      RepAllUnique(pages, t.kids, u.kids);
    }
  }

  lemma {:induction false} RepAllUnique(pages: Pages, ts: seq<Tree>, us: seq<Tree>)
    requires RepAll(pages, ts) && RepAll(pages, us) && |ts| == |us|
    requires forall i :: 0 <= i < |ts| ==> ts[i].pid == us[i].pid
    ensures ts == us
    decreases ts, 0
  {
    if ts != [] {
      RepUnique(pages, ts[0], us[0]);
      RepAllUnique(pages, ts[1..], us[1..]);
      assert ts == [ts[0]] + ts[1..] && us == [us[0]] + us[1..];
    }
  }

  // ----- routing facts

  lemma {:induction false} RoutedBelow(keys: seq<int>, ts: seq<Tree>, lo: Bound, hi: Bound)
    requires RoutedAll(keys, ts, lo, hi)
    ensures Below(lo, hi)
    ensures forall i :: 0 <= i < |keys| ==> Below(lo, Fin(keys[i])) && Below(Fin(keys[i]), hi)
    ensures forall i, j :: 0 <= i < j < |keys| ==> keys[i] < keys[j]
    decreases ts
  {
    if keys != [] {
      RoutedBelow(keys[1..], ts[1..], Fin(keys[0]), hi);
      forall i | 0 <= i < |keys|
        ensures Below(lo, Fin(keys[i])) && Below(Fin(keys[i]), hi)
        ensures i > 0 ==> keys[0] < keys[i]
      {
        if i > 0 { assert keys[i] == keys[1..][i - 1]; }
      }
      forall i, j | 0 <= i < j < |keys|
        ensures keys[i] < keys[j]
      {
        if i > 0 { assert keys[i] == keys[1..][i - 1] && keys[j] == keys[1..][j - 1]; }
      }
    }
  }

  /** Everything a routed subtree stores lies within its bounds, in key order. */
  lemma {:induction false} RoutedFlat(t: Tree, lo: Bound, hi: Bound)
    requires Routed(t, lo, hi)
    ensures Sorted(Flat(t))
    ensures forall i :: 0 <= i < |Flat(t)| ==> Within(Flat(t)[i].key, lo, hi)
    decreases t, 1
  {
    if t.NodeT? {
      RoutedAllFlat(t.keys, t.kids, lo, hi);
    }
  }

  lemma {:induction false} RoutedAllFlat(keys: seq<int>, ts: seq<Tree>, lo: Bound, hi: Bound)
    requires RoutedAll(keys, ts, lo, hi)
    ensures Sorted(FlatAll(ts))
    ensures forall i :: 0 <= i < |FlatAll(ts)| ==> Within(FlatAll(ts)[i].key, lo, hi)
    decreases ts, 0
  {
    RoutedBelow(keys, ts, lo, hi);
    if keys == [] {
      RoutedFlat(ts[0], lo, hi);
      assert FlatAll(ts[1..]) == [];
    } else {
      RoutedFlat(ts[0], lo, Fin(keys[0]));
      RoutedAllFlat(keys[1..], ts[1..], Fin(keys[0]), hi);
    }
  }
}
