/**
 The slotted page and the heap file built from it (src/storage/page.cpp, src/storage/heap_file.cpp):
 a byte buffer changed in place, and why it always is the page of slots it stands for.
 */
module HeapFiles {
  import opened Wrappers
  import opened Bytes
  import opened Entries
  import opened Heap

  const DELETED_FLAG: nat := 0x8000
  const HEAP_PAGE_TYPE: nat := 1

  /** Header: page id at 0 (4 bytes), type at 4, slot count at 6, end of directory at 8, start of records at 10. */
  const OFF_TYPE: nat := 4
  const OFF_SLOT_COUNT: nat := 6
  const OFF_PD_LOWER: nat := 8
  const OFF_PD_UPPER: nat := 10

  function U16(b: seq<byte>, off: nat): (v: nat)
    requires off + 2 <= |b|
    ensures v < 0x1_0000
  {
    b[off] as int + 256 * (b[off + 1] as int)
  }

  function SlotAt(i: nat): nat {
    PAGE_HEADER + SLOT_SIZE * i
  }

  /** Records are stacked down from the end of the page: where record i starts. */
  function RecordStart(slots: seq<Slot>, i: nat): int
    requires i < |slots|
  {
    PAGE_SIZE - Total(slots[..i + 1])
  }

  ghost predicate BytesAt(b: seq<byte>, off: int, data: seq<byte>) {
    0 <= off && off + |data| <= |b| && forall k :: 0 <= k < |data| ==> b[off + k] == data[k]
  }

  function LengthField(s: Slot): nat {
    |s.bytes| + if s.deleted then 0x8000 else 0
  }

  /** The slot entry of `s`, and its bytes where the entry says. */
  ghost predicate SlotStored(b: seq<byte>, i: nat, start: int, s: Slot) {
    && SlotAt(i) + SLOT_SIZE <= |b| && |s.bytes| < DELETED_FLAG
    && U16(b, SlotAt(i)) == start && U16(b, SlotAt(i) + 2) == LengthField(s)
    && BytesAt(b, start, s.bytes)
  }

  /** Slot by slot: the last record starts where the records begin. */
  ghost predicate AllStored(b: seq<byte>, slots: seq<Slot>) {
    slots == [] || (
      var n := |slots| - 1;
      AllStored(b, slots[..n]) && SlotStored(b, n, PAGE_SIZE - Total(slots), slots[n]))
  }

  /** `b` is the page of `slots`: directory growing up, records growing down, no overlap. */
  ghost predicate Layout(b: seq<byte>, slots: seq<Slot>) {
    && |b| == PAGE_SIZE && SlotAt(|slots|) + Total(slots) <= PAGE_SIZE
    && U16(b, 6) == |slots|
    && U16(b, 8) == SlotAt(|slots|)
    && U16(b, 10) == PAGE_SIZE - Total(slots)
    && AllStored(b, slots)
  }

  lemma {:induction false} StoredAt(b: seq<byte>, slots: seq<Slot>, i: nat)
    requires AllStored(b, slots) && i < |slots|
    ensures SlotStored(b, i, RecordStart(slots, i), slots[i])
  {
    var n := |slots| - 1;
    if i < n {
      StoredAt(b, slots[..n], i);
      assert slots[..n][..i + 1] == slots[..i + 1];
    } else {
      assert slots[..i + 1] == slots;
    }
  }

  lemma {:induction false} TotalPrefix(slots: seq<Slot>, i: nat)
    requires i <= |slots|
    ensures Total(slots[..i]) <= Total(slots)
  {
    var n := |slots| - 1;
    if i == |slots| {
      assert slots[..i] == slots;
    } else {
      TotalPrefix(slots[..n], i);
      assert slots[..n][..i] == slots[..i];
    }
  }

  /** Distinct records occupy disjoint bytes, all of them above the slot directory. */
  lemma RecordsDisjoint(b: seq<byte>, slots: seq<Slot>, i: nat, j: nat)
    requires Layout(b, slots) && i < j < |slots|
    ensures SlotAt(|slots|) <= RecordStart(slots, j)
    ensures RecordStart(slots, j) + |slots[j].bytes| <= RecordStart(slots, i)
    ensures RecordStart(slots, i) + |slots[i].bytes| <= PAGE_SIZE
  {
    StartsHigh(slots, j);
    StartStep(slots, i);
    StartStep(slots, j);
    TotalPrefix(slots[..j], i + 1);
    assert slots[..j][..i + 1] == slots[..i + 1];
  }

  lemma StartStep(slots: seq<Slot>, i: nat)
    requires i < |slots|
    ensures RecordStart(slots, i) + |slots[i].bytes| == PAGE_SIZE - Total(slots[..i])
  {
    assert slots[..i + 1][..i] == slots[..i];
  }

  /** A page stands for one list of slots only. */
  lemma LayoutUnique(b: seq<byte>, s: seq<Slot>, t: seq<Slot>)
    requires Layout(b, s) && Layout(b, t)
    ensures s == t
  {
    forall i | 0 <= i < |s| ensures s[i] == t[i] {
      StoredAt(b, s, i);
      StoredAt(b, t, i);
      assert s[i].bytes == t[i].bytes;
    }
  }

  // ----- what the writes add up to

  ghost predicate Same(b: seq<byte>, c: seq<byte>, lo: int, hi: int) {
    |b| == |c| && forall k :: 0 <= lo <= k < hi <= |b| ==> c[k] == b[k]
  }

  lemma SlotKept(b: seq<byte>, c: seq<byte>, i: nat, start: int, s: Slot, lower: nat, upper: nat)
    requires SlotStored(b, i, start, s) && SlotAt(i + 1) <= lower <= upper <= start && upper <= |b|
    requires Same(b, c, PAGE_HEADER, lower) && Same(b, c, upper, |b|)
    ensures SlotStored(c, i, start, s)
  {
  }

  lemma {:induction false} AllKept(b: seq<byte>, c: seq<byte>, slots: seq<Slot>, lower: nat, upper: nat)
    requires AllStored(b, slots) && SlotAt(|slots|) <= lower <= upper <= |b| && upper <= PAGE_SIZE - Total(slots)
    requires Same(b, c, PAGE_HEADER, lower) && Same(b, c, upper, |b|)
    ensures AllStored(c, slots)
  {
    if slots != [] {
      var n := |slots| - 1;
      AllKept(b, c, slots[..n], lower, upper);
      SlotKept(b, c, n, PAGE_SIZE - Total(slots), slots[n], lower, upper);
    }
  }

  lemma TotalSnoc(slots: seq<Slot>, s: Slot)
    ensures Total(slots + [s]) == Total(slots) + |s.bytes|
  {
    assert (slots + [s])[..|slots|] == slots;
  }

  /** Records start behind the free space. */
  lemma StartsHigh(slots: seq<Slot>, i: nat)
    requires i < |slots|
    ensures PAGE_SIZE - Total(slots) <= RecordStart(slots, i)
  {
    TotalPrefix(slots, i + 1);
  }

  /** A record below the others, its entry behind the others and the three header fields make one slot more. */
  lemma InsertLayout(b: seq<byte>, c: seq<byte>, slots: seq<Slot>, data: seq<byte>)
    requires Layout(b, slots) && Fits(slots, |data|) && |c| == PAGE_SIZE
    requires var lower, upper := SlotAt(|slots|), PAGE_SIZE - Total(slots);
             && Same(b, c, PAGE_HEADER, lower) && Same(b, c, upper, PAGE_SIZE)
             && U16(c, OFF_SLOT_COUNT) == |slots| + 1 && U16(c, OFF_PD_LOWER) == lower + SLOT_SIZE
             && U16(c, OFF_PD_UPPER) == upper - |data|
             && SlotStored(c, |slots|, upper - |data|, Slot(data, false))
    ensures Layout(c, slots + [Slot(data, false)])
  {
    AllKept(b, c, slots, SlotAt(|slots|), PAGE_SIZE - Total(slots));
    TotalSnoc(slots, Slot(data, false));
    StoredSnoc(c, slots, Slot(data, false));
  }

  lemma StoredSnoc(c: seq<byte>, slots: seq<Slot>, s: Slot)
    requires AllStored(c, slots) && SlotStored(c, |slots|, PAGE_SIZE - Total(slots) - |s.bytes|, s)
    ensures AllStored(c, slots + [s])
  {
    TotalSnoc(slots, s);
    assert (slots + [s])[..|slots|] == slots;
  }

  lemma {:induction false} MarkedTotal(slots: seq<Slot>, i: nat)
    requires i < |slots|
    ensures Total(Marked(slots, i)) == Total(slots)
  {
    var n := |slots| - 1;
    var marked := Marked(slots, i);
    if i < n {
      MarkedTotal(slots[..n], i);
      assert marked[..n] == Marked(slots[..n], i);
    } else {
      assert marked[..n] == slots[..n];
    }
  }

  lemma {:induction false} AllMarked(b: seq<byte>, c: seq<byte>, slots: seq<Slot>, i: nat, lower: nat)
    requires AllStored(b, slots) && |b| == |c| == PAGE_SIZE && i < |slots|
    requires SlotAt(|slots|) <= lower <= PAGE_SIZE - Total(slots)
    requires Same(b, c, 0, SlotAt(i) + 2) && Same(b, c, SlotAt(i + 1), |b|)
    requires U16(c, SlotAt(i) + 2) == |slots[i].bytes| + DELETED_FLAG
    ensures AllStored(c, Marked(slots, i))
  {
    var n := |slots| - 1;
    MarkedTotal(slots, i);
    MarkedStored(b, c, i, n, PAGE_SIZE - Total(slots), slots[n]);
    if i < n {
      AllMarked(b, c, slots[..n], i, lower);
      assert Marked(slots, i)[..n] == Marked(slots[..n], i);
    } else {
      SlotBefore(b, c, slots[..n], lower);
      assert Marked(slots, i)[..n] == slots[..n];
    }
  }

  lemma SlotBefore(b: seq<byte>, c: seq<byte>, slots: seq<Slot>, lower: nat)
    requires AllStored(b, slots) && |b| == |c| == PAGE_SIZE && SlotAt(|slots| + 1) <= lower <= PAGE_SIZE - Total(slots)
    requires Same(b, c, 0, SlotAt(|slots|) + 2) && Same(b, c, SlotAt(|slots| + 1), |b|)
    ensures AllStored(c, slots)
  {
    AllKept(b, c, slots, SlotAt(|slots|), SlotAt(|slots| + 1));
  }

  lemma MarkedStored(b: seq<byte>, c: seq<byte>, i: nat, j: nat, start: int, s: Slot)
    requires SlotStored(b, j, start, s) && SlotAt(i + 1) <= start && |b| == |c|
    requires Same(b, c, 0, SlotAt(i) + 2) && Same(b, c, SlotAt(i + 1), |b|)
    requires i == j ==> U16(c, SlotAt(i) + 2) == |s.bytes| + DELETED_FLAG
    ensures SlotStored(c, j, start, if i == j then Slot(s.bytes, true) else s)
  {
  }

  /** Setting the flag in one length field marks that slot and no other. */
  lemma DeleteLayout(b: seq<byte>, c: seq<byte>, slots: seq<Slot>, i: nat)
    requires Layout(b, slots) && i < |slots| && |c| == PAGE_SIZE
    requires Same(b, c, 0, SlotAt(i) + 2) && Same(b, c, SlotAt(i + 1), PAGE_SIZE)
    requires U16(c, SlotAt(i) + 2) == |slots[i].bytes| + DELETED_FLAG
    ensures Layout(c, Marked(slots, i))
  {
    MarkedTotal(slots, i);
    AllMarked(b, c, slots, i, SlotAt(|slots|));
  }

  /** What the reader computes from a slot entry. */
  lemma ReadBack(b: seq<byte>, i: nat, start: int, s: Slot)
    requires SlotStored(b, i, start, s)
    ensures var off, field := U16(b, SlotAt(i)), U16(b, SlotAt(i) + 2);
            && field % DELETED_FLAG == |s.bytes| && (field / DELETED_FLAG % 2 != 0 <==> s.deleted)
            && off + |s.bytes| <= |b| && b[off..off + |s.bytes|] == s.bytes
  {
  }

  // ----- the page

  class Page {
    const buf: array<byte>
    ghost var slots: seq<Slot>

    ghost predicate Valid()
      reads this, buf
    {
      buf.Length == PAGE_SIZE && Layout(buf[..], slots)
    }

    constructor ()
      ensures fresh(buf) && buf.Length == PAGE_SIZE
    {
      buf := new byte[PAGE_SIZE];
    }

    method WriteU16(off: nat, v: nat)
      requires off + 2 <= buf.Length && v < 0x1_0000
      modifies buf
      ensures U16(buf[..], off) == v
      ensures Same(old(buf[..]), buf[..], 0, off) && Same(old(buf[..]), buf[..], off + 2, buf.Length)
    {
      buf[off] := (v % 256) as byte;
      buf[off + 1] := (v / 256) as byte;
    }

    method WriteBytes(off: nat, data: seq<byte>)
      requires off + |data| <= buf.Length
      modifies buf
      ensures BytesAt(buf[..], off, data)
      ensures Same(old(buf[..]), buf[..], 0, off) && Same(old(buf[..]), buf[..], off + |data|, buf.Length)
    {
      forall k | 0 <= k < |data| {
        buf[off + k] := data[k];
      }
    }

    /** An empty heap page, whatever the buffer held. */
    method InitHeapPage(pageId: nat)
      requires buf.Length == PAGE_SIZE && pageId < 0x1_0000_0000
      modifies this, buf
      ensures Valid() && slots == []
      ensures BytesAt(buf[..], 0, LE(pageId, 4)) && U16(buf[..], 4) == 1
    {
      forall k | 0 <= k < PAGE_SIZE {
        buf[k] := 0;
      }
      WriteBytes(0, LE(pageId, 4));
      WriteU16(OFF_TYPE, HEAP_PAGE_TYPE);
      WriteU16(OFF_SLOT_COUNT, 0);
      WriteU16(OFF_PD_LOWER, PAGE_HEADER);
      WriteU16(OFF_PD_UPPER, PAGE_SIZE);
      slots := [];
    }

    /** Adds a record exactly when it and its slot entry fit, and never disturbs the records there. */
    method InsertRecord(data: seq<byte>) returns (r: Option<nat>)
      requires Valid()
      modifies this, buf
      ensures Valid()
      ensures r.Some? <==> Fits(old(slots), |data|)
      ensures r.Some? ==> r.value == |old(slots)| && slots == old(slots) + [Slot(data, false)]
      ensures r.None? ==> slots == old(slots) && buf[..] == old(buf[..])
    {
      if |data| >= DELETED_FLAG { return None; }
      var len := |data|;
      var lower, upper := U16(buf[..], OFF_PD_LOWER), U16(buf[..], OFF_PD_UPPER);
      if upper - lower < len + SLOT_SIZE { return None; }
      var slotCount := U16(buf[..], OFF_SLOT_COUNT);
      PutRecord(slotCount, lower, upper, data);
      InsertLayout(old(buf[..]), buf[..], slots, data);
      slots := slots + [Slot(data, false)];
      return Some(slotCount);
    }

    /** The record below the others, its slot entry behind the others, and the header. */
    method PutRecord(slotCount: nat, lower: nat, upper: nat, data: seq<byte>)
      requires buf.Length == PAGE_SIZE && |data| < DELETED_FLAG
      requires lower == SlotAt(slotCount) && lower + SLOT_SIZE + |data| <= upper <= PAGE_SIZE
      modifies buf
      ensures Same(old(buf[..]), buf[..], PAGE_HEADER, lower) && Same(old(buf[..]), buf[..], upper, PAGE_SIZE)
      ensures U16(buf[..], OFF_SLOT_COUNT) == slotCount + 1 && U16(buf[..], OFF_PD_LOWER) == lower + SLOT_SIZE
      ensures U16(buf[..], OFF_PD_UPPER) == upper - |data|
      ensures SlotStored(buf[..], slotCount, upper - |data|, Slot(data, false))
    {
      WriteBytes(upper - |data|, data);
      WriteU16(SlotAt(slotCount), upper - |data|);
      WriteU16(SlotAt(slotCount) + 2, |data|);
      WriteU16(OFF_SLOT_COUNT, slotCount + 1);
      WriteU16(OFF_PD_LOWER, lower + SLOT_SIZE);
      WriteU16(OFF_PD_UPPER, upper - |data|);
    }

    method SlotCount() returns (n: nat)
      requires Valid()
      ensures n == |slots|
    {
      n := U16(buf[..], OFF_SLOT_COUNT);
    }

    method IsDeleted(i: nat) returns (d: bool)
      requires Valid() && i < |slots|
      ensures d == slots[i].deleted
    {
      StoredAt(buf[..], slots, i);
      ReadBack(buf[..], i, RecordStart(slots, i), slots[i]);
      d := U16(buf[..], SlotAt(i) + 2) / DELETED_FLAG % 2 != 0;
    }

    method GetRecord(i: nat) returns (data: seq<byte>)
      requires Valid() && i < |slots|
      ensures data == slots[i].bytes
    {
      var off, len := U16(buf[..], SlotAt(i)), U16(buf[..], SlotAt(i) + 2) % DELETED_FLAG;
      StoredAt(buf[..], slots, i);
      ReadBack(buf[..], i, RecordStart(slots, i), slots[i]);
      assert buf[off..off + len] == buf[..][off..off + len];
      data := buf[off..off + len];
    }

    /** The flag is set whether or not it was set before. */
    method DeleteRecord(i: nat)
      requires Valid() && i < |slots|
      modifies this, buf
      ensures Valid() && slots == Marked(old(slots), i)
    {
      StoredAt(buf[..], slots, i);
      ReadBack(buf[..], i, RecordStart(slots, i), slots[i]);
      var len := U16(buf[..], SlotAt(i) + 2);
      WriteU16(SlotAt(i) + 2, if len < DELETED_FLAG then len + DELETED_FLAG else len);
      DeleteLayout(old(buf[..]), buf[..], slots, i);
      slots := Marked(slots, i);
    }
  }

  // ----- the heap file

  class HeapFile {
    var pages: seq<Page>
    /** The pages of slots the file stands for. */
    ghost var view: Pages

    ghost predicate Valid()
      reads this, pages, set p | p in pages :: p.buf
    {
      && |view| == |pages|
      && (forall i :: 0 <= i < |pages| ==> pages[i].Valid() && pages[i].slots == view[i])
      && (forall i, j :: 0 <= i < j < |pages| ==> pages[i] != pages[j] && pages[i].buf != pages[j].buf)
    }

    constructor ()
      ensures Valid() && view == []
    {
      pages, view := [], [];
    }

    /** Into the last page if it fits there, else into a new one; refused only if no page could hold it. */
    method Insert(row: seq<byte>) returns (r: Option<RID>)
      requires Valid() && |pages| < 0xFFFF_FFFF
      modifies this, pages, set p | p in pages :: p.buf
      ensures Valid()
      ensures r.Some? <==> |row| <= MAX_ROW
      ensures r.Some? ==> view == Inserted(old(view), row).pages && r.value == Inserted(old(view), row).rid
      ensures r.None? ==> view == old(view)
      ensures forall p :: p in pages && p !in old(pages) ==> fresh(p) && fresh(p.buf)
    {
      if |row| > MAX_ROW { return None; }
      if pages != [] {
        var slot := InsertIntoLast(row);
        if slot.Some? {
          return Some(RID(|pages| - 1, slot.value));
        }
      }
      AppendPage(row);
      return Some(RID(|pages| - 1, 0));
    }

    method InsertIntoLast(row: seq<byte>) returns (slot: Option<nat>)
      requires Valid() && pages != []
      modifies this`view, pages, set p | p in pages :: p.buf
      ensures Valid()
      ensures slot.Some? <==> Fits(old(view)[|pages| - 1], |row|)
      ensures slot.Some? ==> slot.value == |old(view)[|pages| - 1]|
                             && view == old(view)[|pages| - 1 := old(view)[|pages| - 1] + [Slot(row, false)]]
      ensures slot.None? ==> view == old(view)
    {
      var n := |pages| - 1;
      slot := pages[n].InsertRecord(row);
      if slot.Some? {
        view := view[n := view[n] + [Slot(row, false)]];
      }
    }

    /** A fresh page takes any row the file accepts. */
    method AppendPage(row: seq<byte>)
      requires Valid() && |pages| < 0xFFFF_FFFF && |row| <= MAX_ROW
      modifies this
      ensures Valid() && |pages| == old(|pages|) + 1 && view == old(view) + [[Slot(row, false)]]
      ensures forall p :: p in pages && p !in old(pages) ==> fresh(p) && fresh(p.buf)
    {
      var page := new Page();
      page.InitHeapPage(|pages|);
      var slot := page.InsertRecord(row);
      assert page.slots == [] + [Slot(row, false)] == [Slot(row, false)];
      pages, view := pages + [page], view + [[Slot(row, false)]];
    }

    method GetRow(rid: RID) returns (r: Option<seq<byte>>)
      requires Valid()
      ensures r == Got(view, rid)
    {
      if rid.pageId >= |pages| { return None; }
      var count := pages[rid.pageId].SlotCount();
      if rid.slotId >= count { return None; }
      var dead := pages[rid.pageId].IsDeleted(rid.slotId);
      if dead { return None; }
      var data := pages[rid.pageId].GetRecord(rid.slotId);
      return Some(data);
    }

    method Delete(rid: RID) returns (found: bool)
      requires Valid()
      modifies this`view, pages, set p | p in pages :: p.buf
      ensures Valid()
      ensures found == Live(old(view), rid) && view == Removed(old(view), rid)
    {
      if rid.pageId >= |pages| { return false; }
      var count := pages[rid.pageId].SlotCount();
      if rid.slotId >= count { return false; }
      var dead := pages[rid.pageId].IsDeleted(rid.slotId);
      if dead { return false; }
      pages[rid.pageId].DeleteRecord(rid.slotId);
      view := Removed(view, rid);
      return true;
    }

    method Scan() returns (out: seq<Stored>)
      requires Valid()
      ensures out == Scanned(view)
    {
      out := [];
      var i := 0;
      while i < |pages|
        invariant 0 <= i <= |pages|
        invariant out == Scanned(view[..i])
      {
        var found := ScanOne(i);
        assert view[..i + 1] == view[..i] + [view[i]];
        ScannedSnoc(view[..i], view[i]);
        out := out + found;
        i := i + 1;
      }
      assert view[..i] == view;
    }

    method ScanOne(pid: nat) returns (out: seq<Stored>)
      requires Valid() && pid < |pages|
      ensures out == ScanPage(pid, pages[pid].slots)
    {
      var page := pages[pid];
      out := [];
      var n := page.SlotCount();
      var s := 0;
      while s < n
        invariant 0 <= s <= n
        invariant out == ScanPage(pid, page.slots[..s])
      {
        assert page.slots[..s + 1] == page.slots[..s] + [page.slots[s]];
        ScanPageSnoc(pid, page.slots[..s], page.slots[s]);
        var dead := page.IsDeleted(s);
        if !dead {
          var data := page.GetRecord(s);
          out := out + [Stored(RID(pid, s), data)];
        }
        s := s + 1;
      }
      assert page.slots[..s] == page.slots;
    }
  }
}
