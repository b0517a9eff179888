/** Sequences up to order: what a pipeline of per-row steps does to permuted input. */
module Bags {
  import opened Seqs

  /** Each element replaced by the elements it gives rise to. */
  function FlatMap<A, B>(f: A -> seq<B>, s: seq<A>): seq<B> {
    if s == [] then [] else f(s[0]) + FlatMap(f, s[1..])
  }

  lemma {:induction false} FlatMapAppend<A, B>(f: A -> seq<B>, a: seq<A>, b: seq<A>)
    ensures FlatMap(f, a + b) == FlatMap(f, a) + FlatMap(f, b)
  {
    if a == [] {
      assert a + b == b;
    } else {
      FlatMapAppend(f, a[1..], b);
      assert (a + b)[0] == a[0] && (a + b)[1..] == a[1..] + b;
      ConcatAssoc(f(a[0]), FlatMap(f, a[1..]), FlatMap(f, b));
    }
  }

  lemma FlatMapSnoc<A, B>(f: A -> seq<B>, s: seq<A>, x: A)
    ensures FlatMap(f, s + [x]) == FlatMap(f, s) + f(x)
  {
    FlatMapAppend(f, s, [x]);
    assert [x][1..] == [];
    assert FlatMap(f, [x]) == f(x) + [] == f(x);
  }

  /** One more step of a loop over `s`. */
  lemma FlatMapStep<A, B>(f: A -> seq<B>, s: seq<A>, k: nat)
    requires k < |s|
    ensures FlatMap(f, s[..k + 1]) == FlatMap(f, s[..k]) + f(s[k])
  {
    assert s[..k + 1] == s[..k] + [s[k]];
    FlatMapSnoc(f, s[..k], s[k]);
  }

  /** Permuting the input permutes the output. */
  lemma {:induction false} FlatMapPermuted<A, B>(f: A -> seq<B>, a: seq<A>, b: seq<A>)
    requires multiset(a) == multiset(b)
    ensures multiset(FlatMap(f, a)) == multiset(FlatMap(f, b))
    decreases |a|
  {
    SameSize(a, b);
    if a != [] {
      var i := PartnerOfHead(a, b);
      FlatMapPermuted(f, a[1..], b[..i] + b[i + 1..]);
      FlatMapMoved(f, b, i);
    }
  }

  lemma SameSize<A>(a: seq<A>, b: seq<A>)
    requires multiset(a) == multiset(b)
    ensures |a| == |b|
  {
    assert |multiset(a)| == |a| && |multiset(b)| == |b|;
  }

  lemma PartnerOfHead<A>(a: seq<A>, b: seq<A>) returns (i: nat)
    requires a != [] && multiset(a) == multiset(b)
    ensures i < |b| && b[i] == a[0] && multiset(a[1..]) == multiset(b[..i] + b[i + 1..])
  {
    HeadRemoved(a);
    i := Find(b, a[0]);
    WithoutOne(b, i);
  }

  lemma HeadRemoved<A>(a: seq<A>)
    requires a != []
    ensures a[0] in multiset(a) && multiset(a[1..]) == multiset(a) - multiset{a[0]}
  {
    assert a == [a[0]] + a[1..];
  }

  lemma ConcatNil<A>(a: seq<A>)
    ensures [] + a == a
  {
  }

  lemma Find<A>(b: seq<A>, x: A) returns (i: nat)
    requires x in multiset(b)
    ensures i < |b| && b[i] == x
  {
    i :| 0 <= i < |b| && b[i] == x;
  }

  lemma FlatMapMoved<A, B>(f: A -> seq<B>, b: seq<A>, i: nat)
    requires i < |b|
    ensures multiset(FlatMap(f, b)) == multiset(f(b[i])) + multiset(FlatMap(f, b[..i] + b[i + 1..]))
  {
    var l, r := b[..i], b[i + 1..];
    assert b == l + ([b[i]] + r);
    FlatMapAppend(f, l, r);
    FlatMapAppend(f, l, [b[i]] + r);
    assert ([b[i]] + r)[0] == b[i] && ([b[i]] + r)[1..] == r;
  }

  lemma WithoutOne<A>(b: seq<A>, i: nat)
    requires i < |b|
    ensures multiset(b[..i] + b[i + 1..]) == multiset(b) - multiset{b[i]}
  {
    assert b == b[..i] + ([b[i]] + b[i + 1..]);
  }

  /** Steps that agree up to order on every element agree up to order on the whole. */
  lemma {:induction false} FlatMapAgree<A, B>(f: A -> seq<B>, g: A -> seq<B>, s: seq<A>)
    requires forall i :: 0 <= i < |s| ==> multiset(f(s[i])) == multiset(g(s[i]))
    ensures multiset(FlatMap(f, s)) == multiset(FlatMap(g, s))
  {
    if s != [] {
      FlatMapAgree(f, g, s[1..]);
    }
  }

  lemma {:induction false} FlatMapEqual<A, B>(f: A -> seq<B>, g: A -> seq<B>, s: seq<A>)
    requires forall i :: 0 <= i < |s| ==> f(s[i]) == g(s[i])
    ensures FlatMap(f, s) == FlatMap(g, s)
  {
    if s != [] {
      FlatMapEqual(f, g, s[1..]);
    }
  }

  function Map<A, B>(f: A -> B, s: seq<A>): (r: seq<B>)
    ensures |r| == |s| && forall i :: 0 <= i < |s| ==> r[i] == f(s[i])
  {
    if s == [] then [] else [f(s[0])] + Map(f, s[1..])
  }

  lemma {:induction false} MapAppend<A, B>(f: A -> B, a: seq<A>, b: seq<A>)
    ensures Map(f, a + b) == Map(f, a) + Map(f, b)
  {
  }
}
