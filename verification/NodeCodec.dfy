/** Index nodes as page images (src/index/btree.cpp:141-237). */
module NodeCodec {
  import opened Wrappers
  import opened Seqs
  import opened Bytes
  import opened Entries
  import opened TreeShape

  const NODE_HEADER: nat := 16
  const LEAF_TYPE: nat := 2
  const INTERNAL_TYPE: nat := 3
  const HEADER_TYPE: nat := 4

  // ----- runs of fixed-width items

  datatype Width<!X(!new)> = Width(size: nat, enc: X -> seq<byte>, dec: seq<byte> -> X, wf: X -> bool) {
    ghost predicate Sound() {
      size > 0 && (forall x :: |enc(x)| == size) && (forall x :: wf(x) ==> dec(enc(x)) == x)
    }
  }

  function WriteAll<X(!new)>(c: Width<X>, xs: seq<X>): seq<byte> {
    if xs == [] then [] else WriteAll(c, xs[..|xs| - 1]) + c.enc(xs[|xs| - 1])
  }

  function ReadAll<X(!new)>(c: Width<X>, d: seq<byte>, n: nat): (xs: seq<X>)
    requires |d| >= n * c.size
    ensures |xs| == n
  {
    if n == 0 then []
    else
      assert n * c.size == (n - 1) * c.size + c.size;
      ReadAll(c, d, n - 1) + [c.dec(d[(n - 1) * c.size..n * c.size])]
  }

  lemma {:induction false} WriteAllSize<X(!new)>(c: Width<X>, xs: seq<X>)
    requires c.Sound()
    ensures |WriteAll(c, xs)| == |xs| * c.size
  {
    if xs != [] {
      WriteAllSize(c, xs[..|xs| - 1]);
      assert |xs| * c.size == (|xs| - 1) * c.size + c.size;
    }
  }

  /** Items written one after the other read back, whatever follows them. */
  lemma {:induction false} ReadBackAll<X(!new)>(c: Width<X>, xs: seq<X>, rest: seq<byte>)
    requires c.Sound() && forall i :: 0 <= i < |xs| ==> c.wf(xs[i])
    ensures |WriteAll(c, xs) + rest| >= |xs| * c.size && ReadAll(c, WriteAll(c, xs) + rest, |xs|) == xs
  {
    WriteAllSize(c, xs);
    if xs != [] {
      var n := |xs| - 1;
      var head, x := WriteAll(c, xs[..n]), c.enc(xs[n]);
      WriteAllSize(c, xs[..n]);
      ConcatAssoc(head, x, rest);
      ReadBackAll(c, xs[..n], x + rest);
      assert |xs| * c.size == n * c.size + c.size;
      assert (head + (x + rest))[n * c.size..|xs| * c.size] == x;
      assert xs == xs[..n] + [xs[n]];
    }
  }

  /** The writing loop: each item behind the last. */
  method WriteItems<X(!new)>(c: Width<X>, xs: seq<X>) returns (body: seq<byte>)
    ensures body == WriteAll(c, xs)
  {
    body := [];
    var i := 0;
    while i < |xs|
      invariant 0 <= i <= |xs| && body == WriteAll(c, xs[..i])
    {
      assert xs[..i + 1][..i] == xs[..i];
      body := body + c.enc(xs[i]);
      i := i + 1;
    }
    assert xs[..i] == xs;
  }

  /** The reading loop: an offset that moves by one item at a time. */
  method ReadItems<X(!new)>(c: Width<X>, d: seq<byte>, n: nat) returns (xs: seq<X>)
    requires |d| >= n * c.size
    ensures xs == ReadAll(c, d, n)
  {
    xs := [];
    var i, off := 0, 0;
    while i < n
      invariant 0 <= i <= n && off == i * c.size && off <= n * c.size
      invariant xs == ReadAll(c, d, i)
    {
      Room(i, n, c.size);
      xs := xs + [c.dec(d[off..off + c.size])];
      off := off + c.size;
      i := i + 1;
    }
  }

  lemma Room(i: nat, n: nat, size: nat)
    requires i < n
    ensures i * size + size == (i + 1) * size <= n * size
  {
    assert (n - i - 1) * size >= 0;
  }

  // ----- the items of leaves and inner nodes

  ghost predicate InInt64(k: int) {
    -0x8000_0000_0000_0000 <= k < 0x8000_0000_0000_0000
  }

  function KeyBytes(k: int): seq<byte> {
    LE(Unsigned(k), 8)
  }

  function KeyAt(d: seq<byte>): int {
    Signed(FromLE(d))
  }

  lemma KeyRoundTrip(k: int)
    requires InInt64(k)
    ensures KeyAt(KeyBytes(k)) == k
  {
    Widths();
    SignedUnsigned(k);
    RoundTripLE(Unsigned(k), 8);
  }

  function EntryBytes(e: Entry): seq<byte> {
    KeyBytes(e.key) + (LE(e.rid.pageId, 4) + LE(e.rid.slotId, 2))
  }

  function EntryAt(d: seq<byte>): Entry {
    if |d| == 14 then Entry(KeyAt(d[..8]), RID(FromLE(d[8..12]), FromLE(d[12..14]))) else Entry(0, RID(0, 0))
  }

  predicate EntryOk(e: Entry) {
    -0x8000_0000_0000_0000 <= e.key < 0x8000_0000_0000_0000 && e.rid.pageId < 0x1_0000_0000 && e.rid.slotId < 0x1_0000
  }

  lemma EntryRoundTrip(e: Entry)
    ensures |EntryBytes(e)| == 14
    ensures EntryOk(e) ==> EntryAt(EntryBytes(e)) == e
  {
    if EntryOk(e) {
      Widths();
      KeyRoundTrip(e.key);
      RoundTripLE(e.rid.pageId, 4);
      RoundTripLE(e.rid.slotId, 2);
      var d := EntryBytes(e);
      assert d[..8] == KeyBytes(e.key) && d[8..12] == LE(e.rid.pageId, 4) && d[12..14] == LE(e.rid.slotId, 2);
    }
  }

  datatype Branch = Branch(key: int, child: PageId)

  function BranchBytes(b: Branch): seq<byte> {
    KeyBytes(b.key) + LE(b.child as nat, 4)
  }

  function PageIdAt(d: seq<byte>): PageId {
    if |d| == 4 then
      FromLEBound(d);
      Widths();
      FromLE(d) as PageId
    else 0
  }

  function BranchAt(d: seq<byte>): Branch {
    if |d| == 12 then Branch(KeyAt(d[..8]), PageIdAt(d[8..12])) else Branch(0, 0)
  }

  predicate BranchOk(b: Branch) {
    -0x8000_0000_0000_0000 <= b.key < 0x8000_0000_0000_0000
  }

  lemma PageIdRoundTrip(p: PageId)
    ensures PageIdAt(LE(p as nat, 4)) == p
  {
    Widths();
    RoundTripLE(p as nat, 4);
  }

  lemma BranchRoundTrip(b: Branch)
    ensures |BranchBytes(b)| == 12
    ensures BranchOk(b) ==> BranchAt(BranchBytes(b)) == b
  {
    if BranchOk(b) {
      KeyRoundTrip(b.key);
      PageIdRoundTrip(b.child);
      ConcatSlices(KeyBytes(b.key), LE(b.child as nat, 4));
      assert BranchBytes(b)[8..12] == LE(b.child as nat, 4);
    }
  }

  function EntryWidth(): Width<Entry> {
    Width(14, EntryBytes, EntryAt, EntryOk)
  }

  function BranchWidth(): Width<Branch> {
    Width(12, BranchBytes, BranchAt, BranchOk)
  }

  lemma EntryWidthSound()
    ensures EntryWidth().Sound()
  {
    forall e: Entry ensures |EntryBytes(e)| == 14 && (EntryOk(e) ==> EntryAt(EntryBytes(e)) == e) {
      EntryRoundTrip(e);
    }
  }

  lemma BranchWidthSound()
    ensures BranchWidth().Sound()
  {
    forall b: Branch ensures |BranchBytes(b)| == 12 && (BranchOk(b) ==> BranchAt(BranchBytes(b)) == b) {
      BranchRoundTrip(b);
    }
  }

  ghost predicate EntriesIn(d: seq<byte>, entries: seq<Entry>) {
    |d| >= |entries| * 14 && ReadAll(EntryWidth(), d, |entries|) == entries
  }

  lemma EntriesReadBack(entries: seq<Entry>, rest: seq<byte>)
    requires forall i :: 0 <= i < |entries| ==> EntryOk(entries[i])
    ensures |WriteAll(EntryWidth(), entries)| == |entries| * 14
    ensures EntriesIn(WriteAll(EntryWidth(), entries) + rest, entries)
  {
    EntryWidthSound();
    WriteAllSize(EntryWidth(), entries);
    ReadBackAll(EntryWidth(), entries, rest);
  }

  lemma BranchesReadBack(bs: seq<Branch>, rest: seq<byte>)
    requires forall i :: 0 <= i < |bs| ==> BranchOk(bs[i])
    ensures |WriteAll(BranchWidth(), bs)| == |bs| * 12
    ensures ReadAll(BranchWidth(), WriteAll(BranchWidth(), bs) + rest, |bs|) == bs
  {
    BranchWidthSound();
    WriteAllSize(BranchWidth(), bs);
    ReadBackAll(BranchWidth(), bs, rest);
  }

  // ----- page images

  function Zeros(n: nat): (z: seq<byte>)
    ensures |z| == n
  {
    seq(n, _ => 0)
  }

  /** page id:4 type:2 count:2 next:4 unused:4 */
  function NodeHeader(pid: PageId, typ: nat, count: nat, next: nat): (h: seq<byte>)
    ensures |h| == NODE_HEADER
  {
    LE(pid as nat, 4) + LE(typ, 2) + LE(count, 2) + LE(next, 4) + LE(0, 4)
  }

  /** Header, contents, and zeros up to the page size. */
  function Image(header: seq<byte>, body: seq<byte>): (d: seq<byte>)
    requires |header| == NODE_HEADER && NODE_HEADER + |body| <= PAGE_SIZE
    ensures |d| == PAGE_SIZE
  {
    header + (body + Zeros(PAGE_SIZE - NODE_HEADER - |body|))
  }

  function LeafImage(pid: PageId, next: PageId, entries: seq<Entry>): seq<byte>
    requires NODE_HEADER + |WriteAll(EntryWidth(), entries)| <= PAGE_SIZE
  {
    Image(NodeHeader(pid, LEAF_TYPE, |entries|, next as nat), WriteAll(EntryWidth(), entries))
  }

  function Branches(keys: seq<int>, children: seq<PageId>): (bs: seq<Branch>)
    requires |children| == |keys| + 1
    ensures |bs| == |keys| && forall i :: 0 <= i < |keys| ==> bs[i] == Branch(keys[i], children[i + 1])
  {
    seq(|keys|, i requires 0 <= i < |keys| => Branch(keys[i], children[i + 1]))
  }

  function InternalBody(keys: seq<int>, children: seq<PageId>): seq<byte>
    requires |children| == |keys| + 1
  {
    LE(children[0] as nat, 4) + WriteAll(BranchWidth(), Branches(keys, children))
  }

  function InternalImage(pid: PageId, keys: seq<int>, children: seq<PageId>): seq<byte>
    requires |children| == |keys| + 1 && NODE_HEADER + |InternalBody(keys, children)| <= PAGE_SIZE
  {
    Image(NodeHeader(pid, INTERNAL_TYPE, |keys|, 0), InternalBody(keys, children))
  }

  /** The page number in the header. */
  predicate Numbered(d: seq<byte>, pid: PageId) {
    |d| == PAGE_SIZE && PageIdAt(d[..4]) == pid
  }

  /** What the reader makes of a page: by its type, a leaf, an inner node, or neither. */
  function NodeAt(d: seq<byte>): Option<Node>
    requires |d| == PAGE_SIZE
  {
    var typ, count := FromLE(d[4..6]), FromLE(d[6..8]);
    if typ == 2 && count <= LEAF_MAX then Some(Leaf(PageIdAt(d[8..12]), ReadAll(EntryWidth(), d[16..], count)))
    else if typ == 3 && count <= INTERNAL_MAX then
      var bs := ReadAll(BranchWidth(), d[20..], count);
      Some(Internal(seq(count, i requires 0 <= i < count => bs[i].key),
                    [PageIdAt(d[16..20])] + seq(count, i requires 0 <= i < count => bs[i].child)))
    else None
  }

  lemma HeaderReads(pid: PageId, typ: nat, count: nat, next: PageId, d: seq<byte>)
    requires typ < 0x1_0000 && count < 0x1_0000 && NodeHeader(pid, typ, count, next as nat) <= d
    ensures PageIdAt(d[..4]) == pid && FromLE(d[4..6]) == typ && FromLE(d[6..8]) == count && PageIdAt(d[8..12]) == next
  {
    Widths();
    RoundTripLE(typ, 2);
    RoundTripLE(count, 2);
    PageIdRoundTrip(pid);
    PageIdRoundTrip(next);
    var h := NodeHeader(pid, typ, count, next as nat);
    assert forall i :: 0 <= i < |h| ==> d[i] == h[i];
    assert d[..4] == LE(pid as nat, 4) && d[4..6] == LE(typ, 2) && d[6..8] == LE(count, 2) &&
        d[8..12] == LE(next as nat, 4);
  }

  /** A page holds exactly as many items as the capacities say, 291 and 339: one more would not fit. */
  lemma CapacitiesAreExact(n: nat)
    ensures LEAF_MAX == 291 && INTERNAL_MAX == 339
    ensures 16 + n * 14 <= 4096 <==> n <= LEAF_MAX
    ensures 16 + 4 + n * 12 <= 4096 <==> n <= INTERNAL_MAX
  {
  }

  lemma LeafFits(entries: seq<Entry>)
    requires |entries| <= LEAF_MAX
    ensures |WriteAll(EntryWidth(), entries)| == |entries| * 14
    ensures NODE_HEADER + |WriteAll(EntryWidth(), entries)| <= PAGE_SIZE
  {
    EntryWidthSound();
    WriteAllSize(EntryWidth(), entries);
  }

  /** Writing a leaf that respects its capacity fits the page, and reading gives it back. */
  lemma LeafRoundTrip(pid: PageId, next: PageId, entries: seq<Entry>)
    requires |entries| <= LEAF_MAX && forall i :: 0 <= i < |entries| ==> EntryOk(entries[i])
    ensures NODE_HEADER + |WriteAll(EntryWidth(), entries)| <= PAGE_SIZE
    ensures Numbered(LeafImage(pid, next, entries), pid)
    ensures NodeAt(LeafImage(pid, next, entries)) == Some(Leaf(next, entries))
  {
    LeafFits(entries);
    var body := WriteAll(EntryWidth(), entries);
    EntriesReadBack(entries, Zeros(PAGE_SIZE - NODE_HEADER - |body|));
    LeafImageReads(pid, next, entries, body);
  }

  lemma LeafImageReads(pid: PageId, next: PageId, entries: seq<Entry>, body: seq<byte>)
    requires |entries| <= LEAF_MAX && NODE_HEADER + |body| <= PAGE_SIZE
    requires EntriesIn(body + Zeros(PAGE_SIZE - NODE_HEADER - |body|), entries)
    ensures var d := Image(NodeHeader(pid, LEAF_TYPE, |entries|, next as nat), body);
            Numbered(d, pid) && NodeAt(d) == Some(Leaf(next, entries))
  {
    var pad := Zeros(PAGE_SIZE - NODE_HEADER - |body|);
    LeafReads(pid, next, entries, NodeHeader(pid, LEAF_TYPE, |entries|, next as nat), body + pad);
  }

  lemma LeafReads(pid: PageId, next: PageId, entries: seq<Entry>, header: seq<byte>, rest: seq<byte>)
    requires |entries| <= LEAF_MAX && header == NodeHeader(pid, LEAF_TYPE, |entries|, next as nat)
    requires |header + rest| == PAGE_SIZE && EntriesIn(rest, entries)
    ensures Numbered(header + rest, pid) && NodeAt(header + rest) == Some(Leaf(next, entries))
  {
    var d := header + rest;
    HeaderReads(pid, LEAF_TYPE, |entries|, next, d);
    assert d[NODE_HEADER..] == rest;
    LeafNodeAt(d, next, entries);
  }

  lemma LeafNodeAt(d: seq<byte>, next: PageId, entries: seq<Entry>)
    requires |d| == PAGE_SIZE && |entries| <= LEAF_MAX && EntriesIn(d[16..], entries)
    requires FromLE(d[4..6]) == LEAF_TYPE && FromLE(d[6..8]) == |entries| && PageIdAt(d[8..12]) == next
    ensures NodeAt(d) == Some(Leaf(next, entries))
  {
  }

  method SerializeLeaf(pid: PageId, next: PageId, entries: seq<Entry>) returns (buf: seq<byte>)
    requires |entries| <= LEAF_MAX && forall i :: 0 <= i < |entries| ==> EntryOk(entries[i])
    ensures |buf| == PAGE_SIZE && Numbered(buf, pid) && NodeAt(buf) == Some(Leaf(next, entries))
  {
    LeafRoundTrip(pid, next, entries);
    var body := WriteItems(EntryWidth(), entries);
    buf := Image(NodeHeader(pid, LEAF_TYPE, |entries|, next as nat), body);
  }

  lemma InternalFits(keys: seq<int>, children: seq<PageId>)
    requires |keys| <= INTERNAL_MAX && |children| == |keys| + 1
    ensures |InternalBody(keys, children)| == 4 + |keys| * 12
    ensures NODE_HEADER + |InternalBody(keys, children)| <= PAGE_SIZE
  {
    BranchWidthSound();
    WriteAllSize(BranchWidth(), Branches(keys, children));
  }

  lemma InternalReads(keys: seq<int>, children: seq<PageId>, d: seq<byte>, pad: seq<byte>)
    requires |children| == |keys| + 1 && (forall i :: 0 <= i < |keys| ==> InInt64(keys[i]))
    requires |d| == PAGE_SIZE && d[16..] == InternalBody(keys, children) + pad
    ensures PageIdAt(d[16..20]) == children[0]
    ensures |d[20..]| >= |keys| * 12 && ReadAll(BranchWidth(), d[20..], |keys|) == Branches(keys, children)
  {
    var bs := WriteAll(BranchWidth(), Branches(keys, children));
    BranchesReadBack(Branches(keys, children), pad);
    ConcatAssoc(LE(children[0] as nat, 4), bs, pad);
    ConcatSlices(LE(children[0] as nat, 4), bs + pad);
    assert d[16..20] == d[16..][..4] && d[20..] == d[16..][4..];
    PageIdRoundTrip(children[0]);
  }

  /** The same for inner nodes. */
  lemma InternalRoundTrip(pid: PageId, keys: seq<int>, children: seq<PageId>)
    requires |keys| <= INTERNAL_MAX && |children| == |keys| + 1 && forall i :: 0 <= i < |keys| ==> InInt64(keys[i])
    ensures NODE_HEADER + |InternalBody(keys, children)| <= PAGE_SIZE
    ensures Numbered(InternalImage(pid, keys, children), pid)
    ensures NodeAt(InternalImage(pid, keys, children)) == Some(Internal(keys, children))
  {
    InternalFits(keys, children);
    var d := InternalImage(pid, keys, children);
    var body, header := InternalBody(keys, children), NodeHeader(pid, INTERNAL_TYPE, |keys|, 0);
    var pad := Zeros(PAGE_SIZE - NODE_HEADER - |body|);
    HeaderReads(pid, INTERNAL_TYPE, |keys|, 0, d);
    ConcatSlices(header, body + pad);
    InternalReads(keys, children, d, pad);
    InternalNodeAt(d, keys, children);
  }

  lemma InternalNodeAt(d: seq<byte>, keys: seq<int>, children: seq<PageId>)
    requires |d| == PAGE_SIZE && |keys| <= INTERNAL_MAX && |children| == |keys| + 1
    requires FromLE(d[4..6]) == INTERNAL_TYPE && FromLE(d[6..8]) == |keys| && PageIdAt(d[16..20]) == children[0]
    requires ReadAll(BranchWidth(), d[20..], |keys|) == Branches(keys, children)
    ensures NodeAt(d) == Some(Internal(keys, children))
  {
    var got := NodeAt(d).value;
    assert got.keys == keys;
    assert got.children == children;
  }

  method SerializeInternal(pid: PageId, keys: seq<int>, children: seq<PageId>) returns (buf: seq<byte>)
    requires |keys| <= INTERNAL_MAX && |children| == |keys| + 1 && forall i :: 0 <= i < |keys| ==> InInt64(keys[i])
    ensures |buf| == PAGE_SIZE && Numbered(buf, pid) && NodeAt(buf) == Some(Internal(keys, children))
  {
    InternalRoundTrip(pid, keys, children);
    var branches := WriteItems(BranchWidth(), Branches(keys, children));
    buf := Image(NodeHeader(pid, INTERNAL_TYPE, |keys|, 0), LE(children[0] as nat, 4) + branches);
  }

  /** Reading a page back, by the type in its header. */
  method DeserializeNode(buf: seq<byte>) returns (r: Option<Node>, pid: PageId)
    requires |buf| == PAGE_SIZE
    ensures r == NodeAt(buf) && Numbered(buf, pid)
  {
    pid := PageIdAt(buf[..4]);
    var typ, count := FromLE(buf[4..6]), FromLE(buf[6..8]);
    if typ == LEAF_TYPE && count <= LEAF_MAX {
      var entries := ReadItems(EntryWidth(), buf[16..], count);
      return Some(Leaf(PageIdAt(buf[8..12]), entries)), pid;
    }
    if typ == INTERNAL_TYPE && count <= INTERNAL_MAX {
      var bs := ReadItems(BranchWidth(), buf[20..], count);
      var keys, children := [], [PageIdAt(buf[16..20])];
      for i := 0 to count
        invariant |keys| == i && |children| == i + 1 && children[0] == PageIdAt(buf[16..20])
        invariant forall j :: 0 <= j < i ==> keys[j] == bs[j].key && children[j + 1] == bs[j].child
      {
        keys, children := keys + [bs[i].key], children + [bs[i].child];
      }
      ghost var n := NodeAt(buf).value;
      assert keys == n.keys && children == n.children;
      return Some(Internal(keys, children)), pid;
    }
    return None, pid;
  }

  /** The header page, which stores the root's page number. */
  function HeaderImage(root: PageId): seq<byte> {
    Image(NodeHeader(0, HEADER_TYPE, 0, 0), LE(root as nat, 4))
  }

  lemma RootRoundTrip(root: PageId)
    ensures PageIdAt(HeaderImage(root)[16..20]) == root
    ensures NodeAt(HeaderImage(root)) == None && FromLE(HeaderImage(root)[4..6]) == 4
  {
    var header, body := NodeHeader(0, HEADER_TYPE, 0, 0), LE(root as nat, 4);
    var d, pad := HeaderImage(root), Zeros(PAGE_SIZE - NODE_HEADER - |body|);
    HeaderReads(0, HEADER_TYPE, 0, 0, d);
    ConcatSlices(header, body + pad);
    ConcatSlices(body, pad);
    assert d[16..20] == d[16..][..4];
    PageIdRoundTrip(root);
  }
}
