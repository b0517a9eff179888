/**
 The abstract value of a B+-tree: its (key, RID) entries in key order, with the
 three operations the index offers stated on plain sequences.
 */
module Entries {
  import opened Seqs

  /** A record address: page and slot (src/common/rid.h). */
  datatype RID = RID(pageId: nat, slotId: nat)

  datatype Entry = Entry(key: int, rid: RID)

  ghost predicate Sorted(s: seq<Entry>) {
    forall i, j :: 0 <= i < j < |s| ==> s[i].key <= s[j].key
  }

  ghost predicate AllBelow(s: seq<Entry>, k: int) {
    forall i :: 0 <= i < |s| ==> s[i].key < k
  }

  ghost predicate AllAbove(s: seq<Entry>, k: int) {
    forall i :: 0 <= i < |s| ==> s[i].key > k
  }

  /** Puts `e` in front of the first entry with a larger key: behind all its equals. */
  function InsertSorted(s: seq<Entry>, e: Entry): (r: seq<Entry>)
    ensures |r| == |s| + 1
  {
    if s == [] || s[0].key > e.key then [e] + s
    else [s[0]] + InsertSorted(s[1..], e)
  }

  /** Drops the first occurrence of `e`, if there is one. */
  function RemoveFirst(s: seq<Entry>, e: Entry): (r: seq<Entry>) {
    if s == [] then []
    else if s[0] == e then s[1..]
    else [s[0]] + RemoveFirst(s[1..], e)
  }

  /** The RIDs stored under `k`, in order. */
  function RidsUnder(s: seq<Entry>, k: int): (r: seq<RID>)
    ensures |r| <= |s|
  {
    if s == [] then []
    else (if s[0].key == k then [s[0].rid] else []) + RidsUnder(s[1..], k)
  }

  function CountKey(s: seq<Entry>, k: int): (n: nat)
    ensures n <= |s|
  {
    |RidsUnder(s, k)|
  }

  // ----- InsertSorted

  lemma {:induction false} InsertSortedAt(s: seq<Entry>, e: Entry, p: nat)
    requires p <= |s|
    requires forall i :: 0 <= i < p ==> s[i].key <= e.key
    requires p < |s| ==> s[p].key > e.key
    ensures InsertSorted(s, e) == s[..p] + [e] + s[p..]
  {
    if p == 0 {
      assert s[..0] + [e] + s[0..] == [e] + s;
    } else {
      var t := s[1..];
      InsertSortedAt(t, e, p - 1);
      assert t[..p - 1] == s[1..p] && t[p - 1..] == s[p..];
      assert s[..p] + [e] + s[p..] == [s[0]] + (s[1..p] + [e] + s[p..]);
    }
  }

  lemma {:induction false} InsertSortedRight(a: seq<Entry>, b: seq<Entry>, e: Entry)
    requires forall i :: 0 <= i < |a| ==> a[i].key <= e.key
    ensures InsertSorted(a + b, e) == a + InsertSorted(b, e)
  {
    if a == [] {
      assert a + b == b;
    } else {
      InsertSortedRight(a[1..], b, e);
      assert (a + b)[1..] == a[1..] + b;
    }
  }

  lemma {:induction false} InsertSortedLeft(a: seq<Entry>, b: seq<Entry>, e: Entry)
    requires forall i :: 0 <= i < |b| ==> b[i].key > e.key
    ensures InsertSorted(a + b, e) == InsertSorted(a, e) + b
  {
    if a == [] {
      assert a + b == b;
      assert [e] + b == [e] + [] + b;
    } else {
      InsertSortedLeft(a[1..], b, e);
      assert (a + b)[1..] == a[1..] + b;
    }
  }

  /** Insertion conserves the stored multiset. */
  lemma {:induction false} InsertSortedMultiset(s: seq<Entry>, e: Entry)
    ensures multiset(InsertSorted(s, e)) == multiset(s) + multiset{e}
  {
    if s == [] || s[0].key > e.key {
    } else {
      InsertSortedMultiset(s[1..], e);
      assert s == [s[0]] + s[1..];
    }
  }

  /** Insertion keeps the order. */
  lemma {:induction false} InsertSortedSorted(s: seq<Entry>, e: Entry)
    requires Sorted(s)
    ensures Sorted(InsertSorted(s, e))
    ensures forall i :: 0 <= i < |s| + 1 ==> InsertSorted(s, e)[i] == e || InsertSorted(s, e)[i] in s
  {
    if s == [] || s[0].key > e.key {
    } else {
      InsertSortedSorted(s[1..], e);
    }
  }

  // ----- RemoveFirst

  lemma {:induction false} RemoveFirstAt(s: seq<Entry>, e: Entry, p: nat)
    requires p < |s| && s[p] == e
    requires forall i :: 0 <= i < p ==> s[i] != e
    ensures RemoveFirst(s, e) == s[..p] + s[p + 1..]
  {
    if p == 0 {
    } else {
      RemoveFirstAt(s[1..], e, p - 1);
      assert s[1..][..p - 1] == s[1..p] && s[1..][p..] == s[p + 1..];
      assert s[..p] == [s[0]] + s[1..p];
    }
  }

  lemma {:induction false} RemoveFirstAbsent(s: seq<Entry>, e: Entry)
    requires e !in s
    ensures RemoveFirst(s, e) == s
  {
    if s == [] {
    } else {
      RemoveFirstAbsent(s[1..], e);
    }
  }

  lemma {:induction false} RemoveFirstRight(a: seq<Entry>, b: seq<Entry>, e: Entry)
    requires e !in a
    ensures RemoveFirst(a + b, e) == a + RemoveFirst(b, e)
  {
    if a == [] {
      assert a + b == b;
    } else {
      RemoveFirstRight(a[1..], b, e);
      assert (a + b)[1..] == a[1..] + b;
    }
  }

  lemma {:induction false} RemoveFirstLeft(a: seq<Entry>, b: seq<Entry>, e: Entry)
    requires e in a
    ensures RemoveFirst(a + b, e) == RemoveFirst(a, e) + b
  {
    if a[0] == e {
      assert (a + b)[1..] == a[1..] + b;
    } else {
      RemoveFirstLeft(a[1..], b, e);
      assert (a + b)[1..] == a[1..] + b;
    }
  }

  /** Removal takes exactly one copy of `e` when there is one, and nothing else. */
  lemma {:induction false} RemoveFirstMultiset(s: seq<Entry>, e: Entry)
    ensures multiset(RemoveFirst(s, e)) == multiset(s) - multiset{e}
  {
    if s == [] {
    } else {
      assert s == [s[0]] + s[1..];
      RemoveFirstMultiset(s[1..], e);
    }
  }

  // ----- RidsUnder

  lemma {:induction false} RidsUnderAppend(a: seq<Entry>, b: seq<Entry>, k: int)
    ensures RidsUnder(a + b, k) == RidsUnder(a, k) + RidsUnder(b, k)
  {
    if a == [] {
      assert a + b == b;
    } else {
      RidsUnderAppend(a[1..], b, k);
      assert (a + b)[0] == a[0] && (a + b)[1..] == a[1..] + b;
      ConcatAssoc(if a[0].key == k then [a[0].rid] else [], RidsUnder(a[1..], k), RidsUnder(b, k));
    }
  }

  lemma {:induction false} RidsUnderNone(s: seq<Entry>, k: int)
    requires forall i :: 0 <= i < |s| ==> s[i].key != k
    ensures RidsUnder(s, k) == []
  {
    if s != [] {
      RidsUnderNone(s[1..], k);
    }
  }

  lemma {:induction false} RidsUnderAll(s: seq<Entry>, k: int)
    requires forall i :: 0 <= i < |s| ==> s[i].key == k
    ensures CountKey(s, k) == |s|
  {
    if s != [] {
      RidsUnderAll(s[1..], k);
    }
  }

  /** Under each key a search sees the multiset of entries, no more and no less. */
  lemma {:induction false} RidsUnderCounts(s: seq<Entry>, k: int, r: RID)
    ensures multiset(RidsUnder(s, k))[r] == multiset(s)[Entry(k, r)]
  {
    if s == [] {
    } else {
      RidsUnderCounts(s[1..], k, r);
      assert s == [s[0]] + s[1..];
    }
  }

  /** Searching after an insert: the new RID is last under its key, other keys are untouched. */
  lemma {:induction false} SearchAfterInsert(s: seq<Entry>, e: Entry, k: int)
    requires Sorted(s)
    ensures RidsUnder(InsertSorted(s, e), k)
         == RidsUnder(s, k) + (if k == e.key then [e.rid] else [])
  {
    if s == [] {
    } else if s[0].key > e.key {
      if k == e.key {
        RidsUnderNone(s, k);
      }
      assert ([e] + s)[1..] == s;
    } else {
      SearchAfterInsert(s[1..], e, k);
      var r := InsertSorted(s[1..], e);
      assert ([s[0]] + r)[0] == s[0] && ([s[0]] + r)[1..] == r;
      ConcatAssoc(if s[0].key == k then [s[0].rid] else [], RidsUnder(s[1..], k), if k == e.key then [e.rid] else []);
    }
  }

  /** Removing what was just inserted restores every search result as a multiset. */
  lemma InsertRemoveRoundTrip(s: seq<Entry>, e: Entry)
    ensures multiset(RemoveFirst(InsertSorted(s, e), e)) == multiset(s)
  {
    InsertSortedMultiset(s, e);
    RemoveFirstMultiset(InsertSorted(s, e), e);
  }

  // ----- runs

  datatype Op = Add(e: Entry) | Drop(e: Entry)

  function Apply(s: seq<Entry>, op: Op): seq<Entry> {
    match op
    case Add(e) => InsertSorted(s, e)
    case Drop(e) => RemoveFirst(s, e)
  }

  function ApplyAll(s: seq<Entry>, ops: seq<Op>): seq<Entry> {
    if ops == [] then s else Apply(ApplyAll(s, ops[..|ops| - 1]), ops[|ops| - 1])
  }

  lemma ApplyAllStep(s: seq<Entry>, ops: seq<Op>, k: nat)
    requires k < |ops|
    ensures ApplyAll(s, ops[..k + 1]) == Apply(ApplyAll(s, ops[..k]), ops[k])
  {
    assert ops[..k + 1][..k] == ops[..k];
  }

  /** No insert of the run meets a key that already has `cap` entries. */
  ghost predicate Capped(s: seq<Entry>, ops: seq<Op>, cap: nat) {
    forall i :: 0 <= i < |ops| && ops[i].Add? ==> CountKey(ApplyAll(s, ops[..i]), ops[i].e.key) < cap
  }

  /** A run conserves entries: what is there at the end was there before or was added. */
  lemma {:induction false} RunConserves(s: seq<Entry>, ops: seq<Op>, e: Entry)
    ensures multiset(ApplyAll(s, ops))[e] <= multiset(s)[e] + multiset(ops)[Add(e)]
    ensures multiset(ApplyAll(s, ops))[e] + multiset(ops)[Drop(e)] >= multiset(s)[e] + multiset(ops)[Add(e)]
  {
    if ops != [] {
      var n := |ops| - 1;
      assert ops == ops[..n] + [ops[n]];
      RunConserves(s, ops[..n], e);
      var before := ApplyAll(s, ops[..n]);
      match ops[n]
      case Add(x) => InsertSortedMultiset(before, x);
      case Drop(x) => RemoveFirstMultiset(before, x);
    }
  }
}
