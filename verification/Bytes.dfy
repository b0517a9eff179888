/** Bytes, and the little-endian integers the engine copies in and out of its pages and records. */
module Bytes {

  newtype byte = x: int | 0 <= x < 256

  const U32: nat := 0x1_0000_0000
  const U64: nat := 0x1_0000_0000_0000_0000
  /** Heap pages, index nodes and page images in the log are all of this size. */
  const PAGE_SIZE: nat := 4096

  function Pow256(w: nat): (p: nat)
    ensures p >= 1
  {
    if w == 0 then 1 else 256 * Pow256(w - 1)
  }

  /** `w` bytes of `v`, least significant first; higher bytes are cut off. */
  function LE(v: nat, w: nat): (s: seq<byte>)
    ensures |s| == w
    decreases w, v
  {
    if w == 0 then [] else [(v % 256) as byte] + LE(v / 256, w - 1)
  }

  function FromLE(s: seq<byte>): nat {
    if s == [] then 0 else s[0] as int + 256 * FromLE(s[1..])
  }

  lemma {:induction false} FromLEBound(s: seq<byte>)
    ensures FromLE(s) < Pow256(|s|)
  {
    if s != [] {
      FromLEBound(s[1..]);
    }
  }

  /** Reading back what was written. */
  lemma {:induction false} RoundTripLE(v: nat, w: nat)
    requires v < Pow256(w)
    ensures FromLE(LE(v, w)) == v
  {
    if w > 0 {
      RoundTripLE(v / 256, w - 1);
      assert LE(v, w)[1..] == LE(v / 256, w - 1);
    }
  }

  /** Writing back what was read. */
  lemma {:induction false} RoundTripFromLE(s: seq<byte>)
    ensures LE(FromLE(s), |s|) == s
  {
    if s != [] {
      RoundTripFromLE(s[1..]);
      assert FromLE(s) % 256 == s[0] as int && FromLE(s) / 256 == FromLE(s[1..]);
    }
  }

  /** Different bytes read as different numbers. */
  lemma FromLEInjective(a: seq<byte>, b: seq<byte>)
    requires |a| == |b| && a != b
    ensures FromLE(a) != FromLE(b)
  {
    RoundTripFromLE(a);
    RoundTripFromLE(b);
  }

  /** Two's complement in 64 bits. */
  function Unsigned(i: int): (u: nat)
    ensures u < U64
  {
    i % U64
  }

  function Signed(u: nat): (i: int)
    ensures u < U64 ==> -0x8000_0000_0000_0000 <= i < 0x8000_0000_0000_0000
  {
    if u < 0x8000_0000_0000_0000 then u else u - U64
  }

  lemma SignedUnsigned(i: int)
    requires -0x8000_0000_0000_0000 <= i < 0x8000_0000_0000_0000
    ensures Signed(Unsigned(i)) == i
  {
    assert i % U64 == if i >= 0 then i else i + U64;
  }

  lemma Widths()
    ensures Pow256(1) == 0x100 && Pow256(2) == 0x1_0000 && Pow256(4) == 0x1_0000_0000
    ensures Pow256(8) == 0x1_0000_0000_0000_0000
  {
    assert Pow256(2) == 256 * Pow256(1);
    assert Pow256(4) == 256 * (256 * Pow256(2));
    assert Pow256(8) == 256 * (256 * (256 * (256 * Pow256(4))));
  }
}
