/** Sequence facts used throughout. */
module Seqs {
  lemma ConcatAssoc<T>(a: seq<T>, b: seq<T>, c: seq<T>)
    ensures (a + b) + c == a + (b + c)
  {
  }

  lemma SplitAt<T>(s: seq<T>, i: nat)
    requires i < |s|
    ensures s == s[..i] + ([s[i]] + s[i + 1..])
  {
  }

  lemma ConcatSlices<T>(a: seq<T>, b: seq<T>)
    ensures (a + b)[..|a|] == a && (a + b)[|a|..] == b
  {
  }

  lemma CutConcat<T>(a: seq<T>, b: seq<T>, k: nat)
    requires k <= |a| + |b|
    ensures (a + b)[..k] == if k < |a| then a[..k] else a + b[..k - |a|]
  {
  }

  lemma PokeConcat<T>(a: seq<T>, b: seq<T>, k: nat, x: T)
    requires k < |a| + |b|
    ensures (a + b)[k := x] == if k < |a| then a[k := x] + b else a + b[k - |a| := x]
  {
  }

  lemma ConsPrefix<T>(s: seq<T>, m: nat)
    requires 0 < m <= |s|
    ensures [s[0]] + s[1..][..m - 1] == s[..m]
  {
  }
}
