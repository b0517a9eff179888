/** The 32-bit FNV-1a hash (src/wal/log_manager.cpp:41-54). */
module Fnv {
  import opened Bytes

  const OFFSET: nat := 0x811c_9dc5
  const PRIME: nat := 0x0100_0193

  /** Exclusive or of the low `n` bits, bit by bit. */
  function XorBits(a: nat, b: nat, n: nat): nat {
    if n == 0 then 0 else (if a % 2 == b % 2 then 0 else 1) + 2 * XorBits(a / 2, b / 2, n - 1)
  }

  function Pow2(n: nat): nat {
    if n == 0 then 1 else 2 * Pow2(n - 1)
  }

  lemma {:induction false} XorBound(a: nat, b: nat, n: nat)
    ensures XorBits(a, b, n) < Pow2(n)
  {
    if n > 0 {
      XorBound(a / 2, b / 2, n - 1);
    }
  }

  lemma {:induction false} XorUndo(a: nat, b: nat, n: nat)
    requires a < Pow2(n)
    ensures XorBits(XorBits(a, b, n), b, n) == a
  {
    if n > 0 {
      XorUndo(a / 2, b / 2, n - 1);
      var x, y := XorBits(a, b, n), XorBits(a / 2, b / 2, n - 1);
      assert x / 2 == y && x % 2 == if a % 2 == b % 2 then 0 else 1;
    }
  }

  lemma {:induction false} XorCommutes(a: nat, b: nat, n: nat)
    ensures XorBits(a, b, n) == XorBits(b, a, n)
  {
    if n > 0 {
      XorCommutes(a / 2, b / 2, n - 1);
    }
  }

  lemma Pow2Eight()
    ensures Pow2(8) == 256
  {
    assert Pow2(4) == 2 * (2 * Pow2(2));
    assert Pow2(8) == 2 * (2 * (2 * (2 * Pow2(4))));
  }

  /** hash ^= byte: only the low eight bits are touched. */
  function XorByte(h: nat, b: byte): nat {
    h - h % 256 + XorBits(h % 256, b as nat, 8)
  }

  function FnvStep(h: nat, b: byte): (r: nat)
    ensures r < U32
  {
    (XorByte(h, b) * PRIME) % U32
  }

  function HashFrom(h: nat, data: seq<byte>): nat
    decreases data
  {
    if data == [] then h else HashFrom(FnvStep(h, data[0]), data[1..])
  }

  function Hash(data: seq<byte>): nat {
    HashFrom(OFFSET, data)
  }

  /** The hash loop. */
  method Fnv1a32(data: seq<byte>) returns (hash: nat)
    ensures hash == Hash(data) && hash < U32
  {
    hash := OFFSET;
    var i := 0;
    while i < |data|
      invariant 0 <= i <= |data| && hash < U32
      invariant HashFrom(hash, data[i..]) == Hash(data)
    {
      assert data[i..][1..] == data[i + 1..];
      hash := FnvStep(hash, data[i]);
      i := i + 1;
    }
  }

  // ----- what a step does to the bits

  /** Bit `i` of a number, counted from the least significant one. */
  predicate Bit(v: nat, i: nat)
    decreases i
  {
    if i == 0 then v % 2 == 1 else Bit(v / 2, i - 1)
  }

  lemma {:induction false} BitOfXor(a: nat, b: nat, n: nat, i: nat)
    requires i < n
    ensures Bit(XorBits(a, b, n), i) <==> (Bit(a, i) != Bit(b, i))
  {
    var x, y := XorBits(a, b, n), XorBits(a / 2, b / 2, n - 1);
    assert x / 2 == y && x % 2 == if a % 2 == b % 2 then 0 else 1;
    if i > 0 {
      BitOfXor(a / 2, b / 2, n - 1, i - 1);
    }
  }

  /** The low `n` bits are those of `low`, the others those of `high`. */
  lemma {:induction false} BitOfSum(v: nat, high: nat, low: nat, n: nat, i: nat)
    requires v == high * Pow2(n) + low && low < Pow2(n)
    ensures Bit(v, i) <==> if i < n then Bit(low, i) else Bit(high, i - n)
    decreases n
  {
    if n > 0 {
      var p := high * Pow2(n - 1);
      assert v == 2 * p + low && v / 2 == p + low / 2 && v % 2 == low % 2;
      if i > 0 {
        BitOfSum(v / 2, high, low / 2, n - 1, i - 1);
      }
    }
  }

  lemma {:induction false} ZeroBits(i: nat)
    ensures !Bit(0, i)
  {
    if i > 0 {
      ZeroBits(i - 1);
    }
  }

  /** Every bit of the result is set when exactly one of the two is. */
  lemma XorByteBits(h: nat, b: byte, i: nat)
    ensures XorByte(h, b) >= 0 && (Bit(XorByte(h, b), i) <==> (Bit(h, i) != Bit(b as nat, i)))
  {
    Pow2Eight();
    XorBound(h % 256, b as nat, 8);
    BitOfSum(h, h / 256, h % 256, 8, i);
    BitOfSum(XorByte(h, b), h / 256, XorBits(h % 256, b as nat, 8), 8, i);
    BitOfSum(b as nat, 0, b as nat, 8, i);
    if i < 8 {
      BitOfXor(h % 256, b as nat, 8, i);
    } else {
      ZeroBits(i - 8);
    }
  }

  /**
   The hash of no bytes is 2166136261. One byte more is an exclusive or with the byte, then a multiplication by
   16777619 modulo two to the 32.
   */
  lemma HashIs(data: seq<byte>, b: byte)
    ensures Hash([]) == 2166136261
    ensures exists x: nat :: (forall i :: Bit(x, i) <==> (Bit(Hash(data), i) != Bit(b as nat, i))) &&
                             Hash(data + [b]) == (x * 16777619) % 4294967296
  {
    var h := Hash(data);
    HashSnoc(OFFSET, data, b);
    forall i: nat ensures Bit(XorByte(h, b), i) <==> (Bit(h, i) != Bit(b as nat, i)) {
      XorByteBits(h, b, i);
    }
    assert XorByte(h, b) >= 0 by { XorByteBits(h, b, 0); }
  }

  lemma {:induction false} HashSnoc(h: nat, data: seq<byte>, b: byte)
    ensures HashFrom(h, data + [b]) == FnvStep(HashFrom(h, data), b)
    decreases data
  {
    if data == [] {
      assert [] + [b] == [b] && [b][1..] == [];
    } else {
      HashSnoc(FnvStep(h, data[0]), data[1..], b);
      assert (data + [b])[1..] == data[1..] + [b];
    }
  }

  // ----- each step is a bijection of the 32-bit state

  lemma XorByteFacts(h: nat, b: byte)
    requires h < U32
    ensures XorByte(h, b) < U32 && XorByte(h, b) / 256 == h / 256
    ensures XorByte(h, b) % 256 == XorBits(h % 256, b as nat, 8)
  {
    Pow2Eight();
    XorBound(h % 256, b as nat, 8);
  }

  lemma XorByteInjective(h: nat, g: nat, b: byte)
    requires h < U32 && g < U32 && XorByte(h, b) == XorByte(g, b)
    ensures h == g
  {
    Pow2Eight();
    XorByteFacts(h, b);
    XorByteFacts(g, b);
    XorUndo(h % 256, b as nat, 8);
    XorUndo(g % 256, b as nat, 8);
  }

  lemma XorByteTells(h: nat, a: byte, b: byte)
    requires h < U32 && XorByte(h, a) == XorByte(h, b)
    ensures a == b
  {
    Pow2Eight();
    XorByteFacts(h, a);
    XorByteFacts(h, b);
    XorCommutes(h % 256, a as nat, 8);
    XorCommutes(h % 256, b as nat, 8);
    XorUndo(a as nat, h % 256, 8);
    XorUndo(b as nat, h % 256, 8);
  }

  const PRIME_INVERSE: nat := 0x359c_449b

  lemma MulUndo(x: nat)
    requires x < U32
    ensures (((x * PRIME) % U32) * PRIME_INVERSE) % U32 == x
  {
    var q, y := (x * PRIME) / U32, (x * PRIME) % U32;
    assert x * PRIME == q * U32 + y;
    assert PRIME * PRIME_INVERSE == 1 + 3513497 * U32;
    var j := 3513497 * x - q * PRIME_INVERSE;
    assert y * PRIME_INVERSE == x + j * U32;
  }

  lemma StepInjective(h: nat, g: nat, b: byte)
    requires h < U32 && g < U32 && h != g
    ensures FnvStep(h, b) != FnvStep(g, b)
  {
    XorByteFacts(h, b);
    XorByteFacts(g, b);
    MulUndo(XorByte(h, b));
    MulUndo(XorByte(g, b));
    if XorByte(h, b) == XorByte(g, b) { XorByteInjective(h, g, b); }
  }

  lemma StepTells(h: nat, a: byte, b: byte)
    requires h < U32 && a != b
    ensures FnvStep(h, a) != FnvStep(h, b)
  {
    XorByteFacts(h, a);
    XorByteFacts(h, b);
    MulUndo(XorByte(h, a));
    MulUndo(XorByte(h, b));
    if XorByte(h, a) == XorByte(h, b) { XorByteTells(h, a, b); }
  }

  lemma {:induction false} HashFromInjective(h: nat, g: nat, data: seq<byte>)
    requires h < U32 && g < U32 && h != g
    ensures HashFrom(h, data) != HashFrom(g, data)
    decreases data
  {
    if data != [] {
      StepInjective(h, g, data[0]);
      HashFromInjective(FnvStep(h, data[0]), FnvStep(g, data[0]), data[1..]);
    }
  }

  lemma {:induction false} HashFromBound(h: nat, data: seq<byte>)
    requires h < U32
    ensures HashFrom(h, data) < U32
    decreases data
  {
    if data != [] {
      HashFromBound(FnvStep(h, data[0]), data[1..]);
    }
  }

  lemma {:induction false} ChangeSeenFrom(h: nat, data: seq<byte>, i: nat, b: byte)
    requires h < U32 && i < |data| && data[i] != b
    ensures HashFrom(h, data[i := b]) != HashFrom(h, data)
    decreases data
  {
    var d := data[i := b];
    if i == 0 {
      assert d[1..] == data[1..];
      StepTells(h, data[0], b);
      HashFromInjective(FnvStep(h, b), FnvStep(h, data[0]), data[1..]);
    } else {
      assert d[0] == data[0] && d[1..] == data[1..][i - 1 := b];
      ChangeSeenFrom(FnvStep(h, data[0]), data[1..], i - 1, b);
    }
  }

  /** Changing any single byte changes the hash. */
  lemma ChangeSeen(data: seq<byte>, i: nat, b: byte)
    requires i < |data| && data[i] != b
    ensures Hash(data[i := b]) != Hash(data)
  {
    ChangeSeenFrom(OFFSET, data, i, b);
  }
}
