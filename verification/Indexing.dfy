/**
 The indexes of a database, each a B+-tree of its own, and keeping them up to date row by row
 (src/sql/executor.cpp:116-132).
 */
module Indexing {
  import opened Bags
  import opened Sql
  import opened Entries
  import opened Heap
  import opened Agreement
  import opened Selection
  import opened Mutation
  import opened Capacity
  import TreeShape
  import TreeLaws
  import BTree

  type Tree = BTree.BPlusTree

  /** The key of a row in an index, and its entry. */
  function EntryOf(t: TableInfo, v: seq<Literal>, rid: RID, x: IndexInfo): Entry {
    Entry(IntValue(Cell(t, v, x.column)), rid)
  }

  // ----- editing several lists in turn

  /** Each index in the list edited once, those in `bad` left out. */
  ghost function Applied(idxs: seq<IndexInfo>, edit: Edit, bad: set<Text>, m: Indexes): Indexes {
    if idxs == [] then m
    else
      var n := |idxs| - 1;
      var before := Applied(idxs[..n], edit, bad, m);
      var name := idxs[n].name;
      if name in bad || name !in before then before else before[name := edit(idxs[n], before[name])]
  }

  lemma {:induction false} AppliedAt(idxs: seq<IndexInfo>, edit: Edit, bad: set<Text>, m: Indexes, name: Text)
    requires DistinctNames(idxs) && name in m && name !in bad
    ensures name in Applied(idxs, edit, bad, m)
    ensures (forall i :: 0 <= i < |idxs| ==> idxs[i].name != name) ==> Applied(idxs, edit, bad, m)[name] == m[name]
    ensures forall i :: 0 <= i < |idxs| && idxs[i].name == name ==>
            Applied(idxs, edit, bad, m)[name] == edit(idxs[i], m[name])
  {
    if idxs != [] {
      var n := |idxs| - 1;
      AppliedAt(idxs[..n], edit, bad, m, name);
      assert forall i :: 0 <= i < n ==> idxs[..n][i] == idxs[i];
    }
  }

  lemma AppliedStep(idxs: seq<IndexInfo>, edit: Edit, bad: set<Text>, m: Indexes, i: nat)
    requires DistinctNames(idxs) && i < |idxs|
    ensures Applied(idxs[..i + 1], edit, bad, m)
         == (var before := Applied(idxs[..i], edit, bad, m);
             if idxs[i].name in bad || idxs[i].name !in before then before
             else before[idxs[i].name := edit(idxs[i], before[idxs[i].name])])
  {
    assert idxs[..i + 1][..i] == idxs[..i];
  }

  lemma {:induction false} OnTableDistinct(idxs: seq<IndexInfo>, table: Text)
    requires DistinctNames(idxs)
    ensures DistinctNames(IndexesOnTable(idxs, table))
  {
    if idxs != [] {
      OnTableDistinct(idxs[1..], table);
      var rest := IndexesOnTable(idxs[1..], table);
      forall j | 0 <= j < |rest| ensures rest[j].name != idxs[0].name {
        assert rest[j] in rest;
      }
      if idxs[0].table != table { ConcatNil(rest); }
    }
  }

  lemma OtherName(c: Catalog, x: IndexInfo, y: IndexInfo)
    requires CatalogOk(c) && x in c.indexes && y in c.indexes && x != y
    ensures x.name != y.name
  {
    var i :| 0 <= i < |c.indexes| && c.indexes[i] == x;
    var j :| 0 <= j < |c.indexes| && c.indexes[j] == y;
  }

  /** Applying the edit to a table's indexes is what the row-level lemmas ask for. */
  lemma AppliedEdits(c: Catalog, table: Text, edit: Edit, bad: set<Text>, m: Indexes)
    requires CatalogOk(c) && forall x :: x in c.indexes ==> x.name in m
    ensures Edited(Trusted(c, bad), table, edit, m, Applied(IndexesOnTable(c.indexes, table), edit, bad, m))
  {
    var idxs := IndexesOnTable(c.indexes, table);
    OnTableDistinct(c.indexes, table);
    var after := Applied(idxs, edit, bad, m);
    forall x | x in Trusted(c, bad).indexes
      ensures x.name in after
      ensures after[x.name] == if x.table == table then edit(x, Contents(m, x.name)) else Contents(m, x.name)
    {
      AppliedAt(idxs, edit, bad, m, x.name);
      if x.table == table {
        assert x in idxs;
      } else {
        forall i | 0 <= i < |idxs| ensures idxs[i].name != x.name {
          assert idxs[i] in idxs;
          OtherName(c, idxs[i], x);
        }
      }
    }
  }

  /** The row's value in some index of the table had as many entries as the tree can hold. */
  ghost predicate WasFull(c: Catalog, t: TableInfo, v: seq<Literal>, m: Indexes, n: Text) {
    exists x :: x in c.indexes && x.table == t.name && x.name == n &&
        CountKey(Contents(m, n), IntValue(Cell(t, v, x.column))) >= CAP
  }

  class IndexSet {
    var trees: map<Text, Tree>
    /** What each tree holds. */
    ghost var lists: Indexes

    /** No two names share a tree. */
    ghost predicate Apart()
      reads this
    {
      forall a, b :: a in trees && b in trees && a != b ==> trees[a] != trees[b]
    }

    /** The tree can be searched and holds what its list says. It may have lost its routing. */
    ghost predicate Held(n: Text)
      reads this, trees.Values
    {
      && n in trees && n in lists && trees[n].Structured() && trees[n].Contents() == lists[n]
      && trees[n].height <= BTree.MAX_TRAVERSAL_STEPS
    }

    ghost predicate Good(n: Text)
      reads this, trees.Values
    {
      n in trees && n in lists && trees[n].Valid() && trees[n].Contents() == lists[n]
    }

    /** All trees are good but those in `bad`. */
    ghost predicate Linked(bad: set<Text>)
      reads this, trees.Values
    {
      Apart() && forall n :: n in trees && n !in bad ==> Good(n)
    }

    /** Every tree has page numbers left for `k` inserts. */
    predicate Paged(k: nat)
      reads this, trees.Values
    {
      forall n :: n in trees ==> trees[n].nextPageId as int + 7 * k <= TreeShape.INVALID_PAGE_ID as int
    }

    ghost predicate Named(c: Catalog)
      reads this
    {
      forall x :: x in c.indexes ==> x.name in trees
    }

    constructor ()
      ensures trees == map[] && lists == map[]
    {
      trees, lists := map[], map[];
    }

    /** A new tree, owned by nobody else, joins under a name. */
    method Join(name: Text, tree: Tree, ghost bad: set<Text>)
      requires Linked(bad) && trees.Keys <= lists.Keys && tree !in trees.Values
      modifies this
      ensures trees == old(trees)[name := tree] && lists == old(lists)[name := tree.Contents()]
      ensures trees.Keys <= lists.Keys && Linked(if tree.Valid() then bad else bad + {name})
    {
      trees := trees[name := tree];
      lists := lists[name := tree.Contents()];
    }

    /** The first i indexes have empty trees, and the others none yet. */
    ghost predicate FirstEmpty(idxs: seq<IndexInfo>, i: nat)
      reads this
    {
      && trees.Keys <= lists.Keys
      && (forall j :: 0 <= j < i && j < |idxs| ==> idxs[j].name in trees && lists[idxs[j].name] == [])
      && forall j :: i <= j < |idxs| ==> idxs[j].name !in trees
    }

    method JoinNext(idxs: seq<IndexInfo>, i: nat)
      requires DistinctNames(idxs) && i < |idxs| && Linked({}) && FirstEmpty(idxs, i)
      modifies this
      ensures Linked({}) && FirstEmpty(idxs, i + 1) && fresh(trees.Values - old(trees.Values))
    {
      var tree := new BTree.BPlusTree();
      Join(idxs[i].name, tree, {});
    }

    /** One entry more. Exactly when its key was full, the tree is no longer good. */
    method InsertOne(n: Text, e: Entry, ghost bad: set<Text>) returns (full: bool)
      requires Linked(bad) && n in trees && n !in bad
      requires trees[n].nextPageId as int + 7 <= TreeShape.INVALID_PAGE_ID as int
      modifies this`lists, trees[n]
      ensures lists == old(lists)[n := InsertSorted(old(lists)[n], e)] && Held(n)
      ensures full <==> CountKey(old(lists)[n], e.key) >= CAP
      ensures Linked(if full then bad + {n} else bad)
      ensures trees[n].nextPageId as int <= old(trees[n].nextPageId as int) + 7
    {
      var found := trees[n].Search(e.key);
      full := |found.value| >= CAP;
      BTree.InsertBounded(trees[n], e);
      lists := lists[n := InsertSorted(lists[n], e)];
    }

    /** One entry less. */
    method DeleteOne(n: Text, e: Entry, ghost bad: set<Text>)
      requires Linked(bad) && n in trees && n !in bad
      modifies this`lists, trees[n]
      ensures lists == old(lists)[n := RemoveFirst(old(lists)[n], e)]
      ensures Linked(bad) && trees[n].nextPageId == old(trees[n].nextPageId)
    {
      var _ := trees[n].Delete(e.key, e.rid);
      lists := lists[n := RemoveFirst(lists[n], e)];
    }

    /** Where each tree's file ends. */
    ghost function Ends(): map<Text, int>
      reads this, trees.Values
    {
      map n | n in trees :: trees[n].nextPageId as int
    }

    /** No tree has grown by more than seven pages, and those still to come not at all. */
    ghost predicate GrownBy(before: map<Text, int>, idxs: seq<IndexInfo>, i: nat)
      reads this, trees.Values
    {
      && (forall n :: n in trees ==> n in before && trees[n].nextPageId as int <= before[n] + 7)
      && (forall j :: i <= j < |idxs| ==>
            idxs[j].name in trees && idxs[j].name in before &&
                trees[idxs[j].name].nextPageId as int == before[idxs[j].name])
    }

    lemma PagedLess(k: nat, fewer: nat)
      requires Paged(k) && fewer <= k
      ensures Paged(fewer)
    {
    }

    lemma EndsPaged(before: map<Text, int>, k: nat)
      requires Ends() == before && forall n :: n in before ==> before[n] + 7 * k <= TreeShape.INVALID_PAGE_ID as int
      ensures Paged(k)
    {
      forall n | n in trees ensures trees[n].nextPageId as int + 7 * k <= TreeShape.INVALID_PAGE_ID as int {
        assert n in before;
      }
    }

    /** One insert later there is room for one insert less. */
    lemma StillPaged(before: map<Text, int>, k: nat)
      requires GrownBy(before, [], 0)
      requires forall n :: n in before ==> before[n] + 7 * (k + 1) <= TreeShape.INVALID_PAGE_ID as int
      ensures Paged(k)
    {
    }

    /** What is known part way through the loop over a table's indexes. */
    ghost predicate Midway(idxs: seq<IndexInfo>, i: nat, edit: Edit, bad: set<Text>, now: set<Text>, m: Indexes)
      requires i <= |idxs|
      reads this, trees.Values
    {
      && Linked(now) && bad <= now && lists == Applied(idxs[..i], edit, bad, m) && trees.Keys <= lists.Keys
      && (forall n :: n in trees && n !in bad ==> Held(n))
      && forall j :: i <= j < |idxs| && idxs[j].name in now ==> idxs[j].name in bad
    }

    /** One round of the loop. */
    method InsertAt(idxs: seq<IndexInfo>, i: nat, t: TableInfo, v: seq<Literal>, rid: RID, bad: set<Text>,
                    now: set<Text>,
                    ghost m: Indexes, ghost ends: map<Text, int>)
      returns (then1: set<Text>)
      requires i < |idxs| && DistinctNames(idxs) && Midway(idxs, i, Adding(t, v, rid), bad, now, m)
      requires GrownBy(ends, idxs, i)
      requires idxs[i].name in m && ends[idxs[i].name] + 7 <= TreeShape.INVALID_PAGE_ID as int
      modifies this`lists, trees[idxs[i].name]
      ensures Midway(idxs, i + 1, Adding(t, v, rid), bad, then1, m)
      ensures GrownBy(ends, idxs, i + 1)
      ensures forall n :: n in then1 && n !in now ==>
                n == idxs[i].name && CountKey(m[n], IntValue(Cell(t, v, idxs[i].column))) >= CAP
    {
      var x := idxs[i];
      AppliedStep(idxs, Adding(t, v, rid), bad, m, i);
      if x.name in bad { return now; }
      AppliedAt(idxs[..i], Adding(t, v, rid), bad, m, x.name);
      then1 := InsertHere(idxs, i, Adding(t, v, rid), EntryOf(t, v, rid, x), bad, now, m, ends);
    }

    method InsertHere(idxs: seq<IndexInfo>, i: nat, ghost edit: Edit, e: Entry, ghost bad: set<Text>, now: set<Text>,
                      ghost m: Indexes, ghost ends: map<Text, int>)
      returns (then1: set<Text>)
      requires i < |idxs| && DistinctNames(idxs) && Midway(idxs, i, edit, bad, now, m) && GrownBy(ends, idxs, i)
      requires idxs[i].name !in bad && idxs[i].name in m && idxs[i].name in lists
      requires var n := idxs[i].name; lists[n] == m[n] && edit(idxs[i], m[n]) == InsertSorted(m[n], e)
      requires ends[idxs[i].name] + 7 <= TreeShape.INVALID_PAGE_ID as int
      requires Applied(idxs[..i + 1], edit, bad, m)
            == Applied(idxs[..i], edit, bad, m)[idxs[i].name := InsertSorted(m[idxs[i].name], e)]
      modifies this`lists, trees[idxs[i].name]
      ensures Midway(idxs, i + 1, edit, bad, then1, m) && GrownBy(ends, idxs, i + 1)
      ensures then1 == if CountKey(m[idxs[i].name], e.key) >= CAP then now + {idxs[i].name} else now
    {
      var full := InsertOne(idxs[i].name, e, now);
      then1 := if full then now + {idxs[i].name} else now;
    }

    /** The row's entry goes into every index of its table but those in `bad`; the new ones in `now` were full. */
    method InsertAll(c: Catalog, t: TableInfo, v: seq<Literal>, rid: RID, bad: set<Text>) returns (now: set<Text>)
      requires CatalogOk(c) && Named(c) && Linked(bad) && Paged(1) && trees.Keys <= lists.Keys
      modifies this`lists, trees.Values
      ensures Linked(now) && bad <= now && trees.Keys <= lists.Keys
      ensures Edited(Trusted(c, bad), t.name, Adding(t, v, rid), old(lists), lists)
      ensures forall n :: n in trees && n !in bad ==> Held(n)
      ensures forall n :: n in now && n !in bad ==> WasFull(c, t, v, old(lists), n)
      ensures GrownBy(old(Ends()), [], 0)
    {
      var idxs := IndexesOnTable(c.indexes, t.name);
      OnTableDistinct(c.indexes, t.name);
      ghost var m := lists;
      GoodIsHeld(bad);
      now := InsertEach(idxs, t, v, rid, bad, m, Ends());
      AppliedEdits(c, t.name, Adding(t, v, rid), bad, m);
      forall n | n in now && n !in bad ensures WasFull(c, t, v, m, n) {
        var j :| 0 <= j < |idxs| && idxs[j].name == n && CountKey(m[n], IntValue(Cell(t, v, idxs[j].column))) >= CAP;
        assert idxs[j] in idxs;
      }
    }

    method InsertEach(idxs: seq<IndexInfo>, t: TableInfo, v: seq<Literal>, rid: RID, bad: set<Text>,
                      ghost m: Indexes, ghost ends: map<Text, int>)
      returns (now: set<Text>)
      requires DistinctNames(idxs) && Midway(idxs, 0, Adding(t, v, rid), bad, bad, m) && GrownBy(ends, idxs, 0)
      requires forall j :: 0 <= j < |idxs| ==>
              idxs[j].name in m && ends[idxs[j].name] + 7 <= TreeShape.INVALID_PAGE_ID as int
      modifies this`lists, trees.Values
      ensures Midway(idxs, |idxs|, Adding(t, v, rid), bad, now, m) && GrownBy(ends, [], 0)
      ensures lists == Applied(idxs, Adding(t, v, rid), bad, m)
      ensures forall n :: n in now && n !in bad ==>
                exists j :: 0 <= j < |idxs| && idxs[j].name == n &&
                    CountKey(m[n], IntValue(Cell(t, v, idxs[j].column))) >= CAP
    {
      now := bad;
      var i := 0;
      while i < |idxs|
        invariant 0 <= i <= |idxs| && Midway(idxs, i, Adding(t, v, rid), bad, now, m) && GrownBy(ends, idxs, i)
        invariant forall n :: n in now && n !in bad ==>
          exists j :: 0 <= j < |idxs| && idxs[j].name == n &&
              CountKey(m[n], IntValue(Cell(t, v, idxs[j].column))) >= CAP
      {
        now := InsertAt(idxs, i, t, v, rid, bad, now, m, ends);
        i := i + 1;
      }
      assert idxs[..i] == idxs;
    }

    /** One round of the loop. */
    method DeleteAt(idxs: seq<IndexInfo>, i: nat, t: TableInfo, v: seq<Literal>, rid: RID, bad: set<Text>,
                    ghost m: Indexes)
      requires i < |idxs| && DistinctNames(idxs) && idxs[i].name in trees && idxs[i].name in m
      requires Linked(bad) && lists == Applied(idxs[..i], Dropping(t, v, rid), bad, m) && trees.Keys <= lists.Keys
      modifies this`lists, trees[idxs[i].name]
      ensures Linked(bad) && lists == Applied(idxs[..i + 1], Dropping(t, v, rid), bad, m) && trees.Keys <= lists.Keys
      ensures trees[idxs[i].name].nextPageId == old(trees[idxs[i].name].nextPageId)
    {
      var x := idxs[i];
      AppliedStep(idxs, Dropping(t, v, rid), bad, m, i);
      if x.name !in bad {
        AppliedAt(idxs[..i], Dropping(t, v, rid), bad, m, x.name);
        DeleteOne(x.name, EntryOf(t, v, rid, x), bad);
      }
    }

    /** The row's entry leaves every index of its table but those in `bad`. */
    method DeleteAll(c: Catalog, t: TableInfo, v: seq<Literal>, rid: RID, bad: set<Text>)
      requires CatalogOk(c) && Named(c) && Linked(bad) && trees.Keys <= lists.Keys
      modifies this`lists, trees.Values
      ensures Linked(bad) && trees.Keys <= lists.Keys && Ends() == old(Ends())
      ensures Edited(Trusted(c, bad), t.name, Dropping(t, v, rid), old(lists), lists)
    {
      var idxs := IndexesOnTable(c.indexes, t.name);
      OnTableDistinct(c.indexes, t.name);
      ghost var m := lists;
      DeleteEach(idxs, t, v, rid, bad);
      AppliedEdits(c, t.name, Dropping(t, v, rid), bad, m);
    }

    /** The indexes of `idxs` have been edited. */
    ghost predicate Dropped(idxs: seq<IndexInfo>, edit: Edit, bad: set<Text>, m: Indexes)
      reads this, trees.Values
    {
      Linked(bad) && trees.Keys <= lists.Keys && lists == Applied(idxs, edit, bad, m)
    }

    method DeleteEach(idxs: seq<IndexInfo>, t: TableInfo, v: seq<Literal>, rid: RID, bad: set<Text>)
      requires DistinctNames(idxs) && Linked(bad) && trees.Keys <= lists.Keys
      requires forall j :: 0 <= j < |idxs| ==> idxs[j].name in trees
      modifies this`lists, trees.Values
      ensures Linked(bad) && trees.Keys <= lists.Keys && Ends() == old(Ends())
      ensures lists == Applied(idxs, Dropping(t, v, rid), bad, old(lists))
    {
      ghost var m, ends := lists, Ends();
      var i := 0;
      while i < |idxs|
        invariant 0 <= i <= |idxs| && Dropped(idxs[..i], Dropping(t, v, rid), bad, m) && Ends() == ends
      {
        DeleteAt(idxs, i, t, v, rid, bad, m);
        i := i + 1;
      }
      assert idxs[..i] == idxs;
    }

    /** What a search of one index sees. */
    method Search(n: Text, k: int) returns (rids: seq<RID>)
      requires Held(n)
      ensures rids == trees[n].Found(k) && |rids| <= CAP
      ensures Good(n) ==> rids == RidsUnder(lists[n], k)
    {
      trees[n].FoundIsBounded(k);
      var r := trees[n].Search(k);
      rids := r.value;
    }

    /** A good tree holds no more than 291 entries of any key. */
    lemma GoodIsCapped(n: Text, k: int)
      requires Good(n)
      ensures CountKey(lists[n], k) <= CAP
    {
      trees[n].ValidIsCapped(k);
    }

    /** A good tree is one that can be searched: its height is at most six. */
    lemma GoodIsHeld(bad: set<Text>)
      requires Linked(bad)
      ensures forall n :: n in trees && n !in bad ==> Held(n)
    {
      forall n | n in trees && n !in bad ensures Held(n) {
        var b := trees[n];
        if b.tree.Some? { TreeLaws.HeightAtMostSix(b.pages, b.tree.value, b.height, b.nextPageId); }
      }
    }
  }

  /**
   The backfill of CREATE INDEX: one entry per row into a new tree. It stops being described at the first
   entry whose key is full, and that happens exactly when some value has more than 291 rows.
   */
  method BuildTree(key: Key, rows: seq<Stored>) returns (tree: Tree, full: bool)
    requires 1 + 7 * |rows| <= TreeShape.INVALID_PAGE_ID as int
    ensures fresh(tree) && (full <==> !CappedBy(key, rows))
    ensures !full ==> tree.Valid() && Agrees(key, tree.Contents(), rows)
  {
    tree := new BTree.BPlusTree();
    full := false;
    var i := 0;
    while i < |rows|
      invariant 0 <= i <= |rows| && fresh(tree) && tree.Valid() && Agrees(key, tree.Contents(), rows[..i])
      invariant tree.nextPageId as int <= 1 + 7 * i
    {
      full := Backfill(tree, key, rows, i);
      if full { return; }
      i := i + 1;
    }
    assert rows[..i] == rows;
    TreeCaps(tree, key, rows);
  }

  /** One row's entry, unless its key is full. */
  method Backfill(tree: Tree, key: Key, rows: seq<Stored>, i: nat) returns (full: bool)
    requires i < |rows| && tree.Valid() && Agrees(key, tree.Contents(), rows[..i])
    requires tree.nextPageId as int + 7 <= TreeShape.INVALID_PAGE_ID as int
    modifies tree
    ensures full ==> !CappedBy(key, rows)
    ensures !full ==> tree.Valid() && Agrees(key, tree.Contents(), rows[..i + 1])
    ensures tree.nextPageId as int <= old(tree.nextPageId) as int + 7
  {
    var x := rows[i];
    assert rows[..i + 1] == rows[..i] + [x];
    var found := tree.Search(key(x));
    AgreedCount(key, tree.Contents(), rows[..i], key(x));
    full := |found.value| >= CAP;
    if full {
      PrefixOverfull(key, rows, i);
    } else {
      AgreesAfterInsert(key, tree.Contents(), rows[..i], x);
      BTree.InsertBounded(tree, Entry(key(x), x.rid));
    }
  }

  /** A valid tree that agrees with the rows: no key has more than 291 of them. */
  lemma TreeCaps(tree: Tree, key: Key, rows: seq<Stored>)
    requires tree.Valid() && Agrees(key, tree.Contents(), rows)
    ensures CappedBy(key, rows)
  {
    forall k ensures CountOf(key, rows, k) <= CAP {
      tree.ValidIsCapped(k);
      AgreedCount(key, tree.Contents(), rows, k);
    }
  }

  lemma PrefixOverfull(key: Key, rows: seq<Stored>, i: nat)
    requires i < |rows| && CountOf(key, rows[..i], key(rows[i])) >= CAP
    ensures !CappedBy(key, rows)
  {
    var k := key(rows[i]);
    assert rows == rows[..i] + ([rows[i]] + rows[i + 1..]);
    CountAppend(key, rows[..i], [rows[i]] + rows[i + 1..], k);
    CountAppend(key, [rows[i]], rows[i + 1..], k);
    CountOne(key, rows[i], k);
    assert CountOf(key, rows, k) > CAP;
  }

  /** A tree of its own for every index of a catalog. */
  method EmptyIndexes(idxs: seq<IndexInfo>) returns (set0: IndexSet)
    requires DistinctNames(idxs)
    ensures fresh(set0) && fresh(set0.trees.Values) && set0.Linked({}) && set0.trees.Keys <= set0.lists.Keys
    ensures forall j :: 0 <= j < |idxs| ==> idxs[j].name in set0.trees && set0.lists[idxs[j].name] == []
  {
    set0 := new IndexSet();
    var i := 0;
    while i < |idxs|
      invariant 0 <= i <= |idxs| && fresh(set0) && fresh(set0.trees.Values) && set0.Linked({})
      invariant set0.FirstEmpty(idxs, i)
    {
      set0.JoinNext(idxs, i);
      i := i + 1;
    }
  }
}
