/**
 A heap file as pages of record slots, without the bytes (src/storage/heap_file.cpp).
 Slots are only ever added behind the last one; deleting marks a slot.
 */
module Heap {
  import opened Wrappers
  import opened Seqs
  import opened Bytes
  import opened Entries

  const PAGE_HEADER: nat := 16
  const SLOT_SIZE: nat := 4
  const MAX_ROW: nat := PAGE_SIZE - PAGE_HEADER - SLOT_SIZE

  datatype Slot = Slot(bytes: seq<byte>, deleted: bool)
  datatype Stored = Stored(rid: RID, bytes: seq<byte>)

  type Pages = seq<seq<Slot>>

  /** Record bytes on a page, tombstones included. */
  function Total(slots: seq<Slot>): nat {
    if slots == [] then 0 else Total(slots[..|slots| - 1]) + |slots[|slots| - 1].bytes|
  }

  /** A record of `n` bytes and its slot entry fit between the directory and the records. */
  predicate Fits(slots: seq<Slot>, n: nat) {
    PAGE_HEADER + SLOT_SIZE * |slots| + SLOT_SIZE + n + Total(slots) <= PAGE_SIZE
  }

  datatype Placed = Placed(pages: Pages, rid: RID)

  function Inserted(h: Pages, row: seq<byte>): Placed {
    var n := |h| - 1;
    if h != [] && Fits(h[n], |row|) then
      Placed(h[n := h[n] + [Slot(row, false)]], RID(n, |h[n]|))
    else
      Placed(h + [[Slot(row, false)]], RID(|h|, 0))
  }

  predicate HasSlot(h: Pages, rid: RID) {
    rid.pageId < |h| && rid.slotId < |h[rid.pageId]|
  }

  predicate Live(h: Pages, rid: RID) {
    HasSlot(h, rid) && !h[rid.pageId][rid.slotId].deleted
  }

  function Got(h: Pages, rid: RID): Option<seq<byte>> {
    if Live(h, rid) then Some(h[rid.pageId][rid.slotId].bytes) else None
  }

  function Marked(slots: seq<Slot>, i: nat): seq<Slot>
    requires i < |slots|
  {
    slots[i := Slot(slots[i].bytes, true)]
  }

  function Removed(h: Pages, rid: RID): Pages {
    if Live(h, rid) then h[rid.pageId := Marked(h[rid.pageId], rid.slotId)] else h
  }

  // ----- scanning

  function ScanPage(pid: nat, slots: seq<Slot>): seq<Stored> {
    if slots == [] then []
    else
      var n := |slots| - 1;
      ScanPage(pid, slots[..n]) + if slots[n].deleted then [] else [Stored(RID(pid, n), slots[n].bytes)]
  }

  function Scanned(h: Pages): seq<Stored> {
    if h == [] then [] else Scanned(h[..|h| - 1]) + ScanPage(|h| - 1, h[|h| - 1])
  }

  lemma ScanPageSnoc(pid: nat, slots: seq<Slot>, s: Slot)
    ensures ScanPage(pid, slots + [s]) == ScanPage(pid, slots) + if s.deleted then []
            else [Stored(RID(pid, |slots|), s.bytes)]
  {
    assert (slots + [s])[..|slots|] == slots;
  }

  lemma ScannedSnoc(h: Pages, slots: seq<Slot>)
    ensures Scanned(h + [slots]) == Scanned(h) + ScanPage(|h|, slots)
  {
    assert (h + [slots])[..|h|] == h;
  }

  /** What a scan of one page shows: its live slots, each once, in order. */
  lemma {:induction false} ScanPageHas(pid: nat, slots: seq<Slot>, x: Stored)
    ensures x in ScanPage(pid, slots) <==>
            x.rid.pageId == pid && x.rid.slotId < |slots| && slots[x.rid.slotId] == Slot(x.bytes, false)
  {
    if slots != [] {
      var n := |slots| - 1;
      ScanPageHas(pid, slots[..n], x);
      assert x.rid == RID(x.rid.pageId, x.rid.slotId);
    }
  }

  /** A scan shows exactly the live rows. */
  lemma {:induction false} ScannedHas(h: Pages, x: Stored)
    ensures x in Scanned(h) <==> Got(h, x.rid) == Some(x.bytes)
  {
    if h != [] {
      var n := |h| - 1;
      ScannedHas(h[..n], x);
      ScanPageHas(n, h[n], x);
    }
  }

  /** Page before page, slot before slot. */
  predicate Before(a: RID, b: RID) {
    a.pageId < b.pageId || (a.pageId == b.pageId && a.slotId < b.slotId)
  }

  ghost predicate Ordered(rows: seq<Stored>) {
    forall i, j :: 0 <= i < j < |rows| ==> Before(rows[i].rid, rows[j].rid)
  }

  lemma {:induction false} ScanPageOrdered(pid: nat, slots: seq<Slot>)
    ensures Ordered(ScanPage(pid, slots))
  {
    if slots != [] {
      var n := |slots| - 1;
      ScanPageOrdered(pid, slots[..n]);
      forall x | x in ScanPage(pid, slots[..n]) ensures Before(x.rid, RID(pid, n)) {
        ScanPageHas(pid, slots[..n], x);
      }
    }
  }

  /** Scans go in address order, so no row shows twice. */
  lemma {:induction false} ScannedOrdered(h: Pages)
    ensures Ordered(Scanned(h))
  {
    if h != [] {
      var n := |h| - 1;
      ScannedOrdered(h[..n]);
      ScanPageOrdered(n, h[n]);
      forall x, y | x in Scanned(h[..n]) && y in ScanPage(n, h[n]) ensures Before(x.rid, y.rid) {
        ScannedHas(h[..n], x);
        ScanPageHas(n, h[n], y);
      }
    }
  }

  // ----- insertion

  /** An insert adds one row at the end of the scan, at an address never used before. */
  lemma InsertScan(h: Pages, row: seq<byte>)
    ensures var p := Inserted(h, row);
            && Scanned(p.pages) == Scanned(h) + [Stored(p.rid, row)] && !HasSlot(h, p.rid)
            && forall rid :: HasSlot(h, rid) ==>
                HasSlot(p.pages, rid) && p.pages[rid.pageId][rid.slotId] == h[rid.pageId][rid.slotId]
  {
    var n := |h| - 1;
    if h != [] && Fits(h[n], |row|) {
      AppendToLast(h, Slot(row, false));
    } else {
      ScannedSnoc(h, [Slot(row, false)]);
      ScanPageSnoc(|h|, [], Slot(row, false));
      assert [] + [Slot(row, false)] == [Slot(row, false)];
    }
  }

  lemma AppendToLast(h: Pages, s: Slot)
    requires h != [] && !s.deleted
    ensures var n := |h| - 1;
            Scanned(h[n := h[n] + [s]]) == Scanned(h) + [Stored(RID(n, |h[n]|), s.bytes)]
  {
    var n := |h| - 1;
    assert h[n := h[n] + [s]] == h[..n] + [h[n] + [s]];
    ScannedSnoc(h[..n], h[n] + [s]);
    ScanPageSnoc(n, h[n], s);
    ConcatAssoc(Scanned(h[..n]), ScanPage(n, h[n]), [Stored(RID(n, |h[n]|), s.bytes)]);
  }

  /** Every row the file accepts fits on a fresh page. */
  lemma FreshPageFits(n: nat)
    ensures Fits([], n) <==> n <= MAX_ROW
    ensures MAX_ROW == 4096 - 16 - 4
  {
  }

  // ----- deletion

  function Without(rows: seq<Stored>, rid: RID): seq<Stored> {
    if rows == [] then [] else (if rows[0].rid == rid then [] else [rows[0]]) + Without(rows[1..], rid)
  }

  lemma {:induction false} WithoutAppend(a: seq<Stored>, b: seq<Stored>, rid: RID)
    ensures Without(a + b, rid) == Without(a, rid) + Without(b, rid)
  {
    if a == [] {
      assert a + b == b;
    } else {
      WithoutAppend(a[1..], b, rid);
      assert (a + b)[0] == a[0] && (a + b)[1..] == a[1..] + b;
      ConcatAssoc(if a[0].rid == rid then [] else [a[0]], Without(a[1..], rid), Without(b, rid));
    }
  }

  lemma {:induction false} WithoutAbsent(a: seq<Stored>, rid: RID)
    requires forall i :: 0 <= i < |a| ==> a[i].rid != rid
    ensures Without(a, rid) == a
  {
    if a != [] {
      WithoutAbsent(a[1..], rid);
    }
  }

  /** Rows at other addresses are kept as they are. */
  lemma {:induction false} WithoutHas(a: seq<Stored>, rid: RID, x: Stored)
    ensures x in Without(a, rid) <==> x in a && x.rid != rid
  {
    if a != [] {
      WithoutHas(a[1..], rid, x);
    }
  }

  lemma {:induction false} ScanPageMarked(pid: nat, slots: seq<Slot>, s: nat)
    requires s < |slots|
    ensures ScanPage(pid, Marked(slots, s)) == Without(ScanPage(pid, slots), RID(pid, s))
  {
    var n := |slots| - 1;
    assert slots == slots[..n] + [slots[n]];
    if s < n {
      ScanPageMarked(pid, slots[..n], s);
      assert Marked(slots, s) == Marked(slots[..n], s) + [slots[n]];
      WithoutSnoc(pid, slots[..n], slots[n], s);
      ScanPageSnoc(pid, Marked(slots[..n], s), slots[n]);
    } else {
      assert Marked(slots, s) == slots[..n] + [Slot(slots[n].bytes, true)];
      ScanPageSnoc(pid, slots[..n], Slot(slots[n].bytes, true));
      WithoutLast(pid, slots[..n], slots[n]);
    }
  }

  lemma WithoutSnoc(pid: nat, slots: seq<Slot>, last: Slot, s: nat)
    requires s < |slots|
    ensures Without(ScanPage(pid, slots + [last]), RID(pid, s))
         == Without(ScanPage(pid, slots), RID(pid, s)) + if last.deleted then []
             else [Stored(RID(pid, |slots|), last.bytes)]
  {
    var shown := if last.deleted then [] else [Stored(RID(pid, |slots|), last.bytes)];
    ScanPageSnoc(pid, slots, last);
    WithoutAppend(ScanPage(pid, slots), shown, RID(pid, s));
    WithoutAbsent(shown, RID(pid, s));
  }

  lemma WithoutLast(pid: nat, slots: seq<Slot>, last: Slot)
    ensures Without(ScanPage(pid, slots + [last]), RID(pid, |slots|)) == ScanPage(pid, slots)
  {
    var shown := if last.deleted then [] else [Stored(RID(pid, |slots|), last.bytes)];
    ScanPageSnoc(pid, slots, last);
    WithoutAppend(ScanPage(pid, slots), shown, RID(pid, |slots|));
    NewSlotAvoided(pid, slots);
    assert Without(shown, RID(pid, |slots|)) == [];
  }

  lemma NewSlotAvoided(pid: nat, slots: seq<Slot>)
    ensures Without(ScanPage(pid, slots), RID(pid, |slots|)) == ScanPage(pid, slots)
  {
    forall i | 0 <= i < |ScanPage(pid, slots)| ensures ScanPage(pid, slots)[i].rid != RID(pid, |slots|) {
      ScanPageHas(pid, slots, ScanPage(pid, slots)[i]);
    }
    WithoutAbsent(ScanPage(pid, slots), RID(pid, |slots|));
  }

  lemma ScanAvoids(h: Pages, n: nat, rid: RID)
    requires rid.pageId >= n && n <= |h|
    ensures Without(Scanned(h[..n]), rid) == Scanned(h[..n])
  {
    forall i | 0 <= i < |Scanned(h[..n])| ensures Scanned(h[..n])[i].rid != rid {
      ScannedHas(h[..n], Scanned(h[..n])[i]);
    }
    WithoutAbsent(Scanned(h[..n]), rid);
  }

  lemma PageAvoids(pid: nat, slots: seq<Slot>, rid: RID)
    requires rid.pageId != pid
    ensures Without(ScanPage(pid, slots), rid) == ScanPage(pid, slots)
  {
    forall i | 0 <= i < |ScanPage(pid, slots)| ensures ScanPage(pid, slots)[i].rid != rid {
      ScanPageHas(pid, slots, ScanPage(pid, slots)[i]);
    }
    WithoutAbsent(ScanPage(pid, slots), rid);
  }

  /** A delete takes its own row out of the scan and leaves all others, in order, with their addresses. */
  lemma {:induction false} RemoveScan(h: Pages, rid: RID)
    requires Live(h, rid)
    ensures Scanned(Removed(h, rid)) == Without(Scanned(h), rid)
  {
    var n := |h| - 1;
    var after := Removed(h, rid);
    WithoutAppend(Scanned(h[..n]), ScanPage(n, h[n]), rid);
    if rid.pageId < n {
      assert after[..n] == Removed(h[..n], rid);
      RemoveScan(h[..n], rid);
      PageAvoids(n, h[n], rid);
    } else {
      assert after[..n] == h[..n];
      ScanAvoids(h, n, rid);
      ScanPageMarked(n, h[n], rid.slotId);
    }
  }
}
