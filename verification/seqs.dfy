/** Generic sequence helpers. They are stated for an arbitrary element type so
    that proofs using them do not look inside the elements. */
module Seqs {

  function Last<T>(xs: seq<T>): T
    requires |xs| > 0
  {
    xs[|xs| - 1]
  }

  lemma InitOfAppend<T>(xs: seq<T>, ys: seq<T>)
    requires |ys| > 0
    ensures (xs + ys)[..|xs + ys| - 1] == xs + ys[..|ys| - 1]
    ensures (xs + ys)[|xs + ys| - 1] == ys[|ys| - 1]
  {
  }

  lemma InitOfSnoc<T>(xs: seq<T>, x: T)
    ensures (xs + [x])[..|xs|] == xs && (xs + [x])[|xs|] == x
  {
  }

  lemma PrefixOfPrefix<T>(xs: seq<T>, i: nat)
    requires i < |xs|
    ensures xs[..i + 1][..i] == xs[..i] && xs[..i + 1][i] == xs[i]
  {
  }

  /** Pairs up two sequences of equal length, element by element. */
  function Zip<A, B>(xs: seq<A>, ys: seq<B>): (zs: seq<(A, B)>)
    requires |xs| == |ys|
    ensures |zs| == |xs|
    ensures forall i :: 0 <= i < |xs| ==> zs[i] == (xs[i], ys[i])
  {
    seq(|xs|, i requires 0 <= i < |xs| => (xs[i], ys[i]))
  }

  lemma ZipPrefix<A, B>(xs: seq<A>, ys: seq<B>, i: nat)
    requires |xs| == |ys| && i < |xs|
    ensures Zip(xs[..i + 1], ys[..i + 1]) == Zip(xs[..i], ys[..i]) + [(xs[i], ys[i])]
  {
  }

  lemma ZipAppend<A, B>(xs1: seq<A>, ys1: seq<B>, xs2: seq<A>, ys2: seq<B>)
    requires |xs1| == |ys1| && |xs2| == |ys2|
    ensures Zip(xs1 + xs2, ys1 + ys2) == Zip(xs1, ys1) + Zip(xs2, ys2)
  {
  }

  /** Number of elements of `xs` that satisfy `p`. */
  function CountWhere<T>(p: T -> bool, xs: seq<T>): nat
  {
    if |xs| == 0 then 0 else CountWhere(p, xs[..|xs| - 1]) + (if p(xs[|xs| - 1]) then 1 else 0)
  }

  /** Counting pairs by their first component counts the first sequence. */
  lemma {:induction false} CountWhereZip<A, B>(p: A -> bool, q: ((A, B)) -> bool, xs: seq<A>, ys: seq<B>)
    requires |xs| == |ys|
    requires forall z :: q(z) == p(z.0)
    ensures CountWhere(q, Zip(xs, ys)) == CountWhere(p, xs)
  {
    if |xs| > 0 {
      var n := |xs| - 1;
      CountWhereZip(p, q, xs[..n], ys[..n]);
      assert Zip(xs, ys)[..n] == Zip(xs[..n], ys[..n]);
    }
  }
}
