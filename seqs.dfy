/** Element-wise mapping of sequences (Python list comprehensions of the form
    `[f(x) for x in xs]`) and how it interacts with multisets. */
module Seqs {

  function Map<A, B>(f: A -> B, xs: seq<A>): (ys: seq<B>)
    ensures |ys| == |xs|
    ensures forall i :: 0 <= i < |xs| ==> ys[i] == f(xs[i])
  {
    seq(|xs|, i requires 0 <= i < |xs| => f(xs[i]))
  }

  lemma MapAppend<A, B>(f: A -> B, xs: seq<A>, ys: seq<A>)
    ensures Map(f, xs + ys) == Map(f, xs) + Map(f, ys)
  {
  }

  /** Removing the element at `j` removes its image from the mapped multiset. */
  lemma MapMultisetRemove<A, B>(f: A -> B, ys: seq<A>, j: nat)
    requires j < |ys|
    ensures multiset(Map(f, ys)) == multiset(Map(f, ys[..j] + ys[j + 1..])) + multiset{f(ys[j])}
  {
    assert ys == ys[..j] + [ys[j]] + ys[j + 1..];
    MapAppend(f, ys[..j] + [ys[j]], ys[j + 1..]);
    MapAppend(f, ys[..j], [ys[j]]);
    MapAppend(f, ys[..j], ys[j + 1..]);
  }

  lemma MultisetCancel<A>(a: multiset<A>, b: multiset<A>, x: A)
    requires a + multiset{x} <= b + multiset{x}
    ensures a <= b
  {
    forall e ensures a[e] <= b[e] {
      assert (a + multiset{x})[e] <= (b + multiset{x})[e];
    }
  }

  lemma MultisetAddSubset<A>(a: multiset<A>, b: multiset<A>, x: A)
    requires a <= b
    ensures a + multiset{x} <= b + multiset{x}
  {
  }

  lemma RemoveAt<A>(ys: seq<A>, j: nat)
    requires j < |ys|
    ensures multiset(ys) == multiset(ys[..j] + ys[j + 1..]) + multiset{ys[j]}
  {
    assert ys == ys[..j] + [ys[j]] + ys[j + 1..];
  }

  lemma HeadTail<A>(xs: seq<A>)
    requires xs != []
    ensures multiset(xs) == multiset(xs[1..]) + multiset{xs[0]}
  {
    assert xs == [xs[0]] + xs[1..];
  }

  /** Mapping keeps multiset inclusion: if every element of `xs` (with its
      multiplicity) is drawn from `ys`, the same holds of their images. */
  lemma {:induction false} MapMultisetSubset<A, B>(f: A -> B, xs: seq<A>, ys: seq<A>)
    requires multiset(xs) <= multiset(ys)
    ensures multiset(Map(f, xs)) <= multiset(Map(f, ys))
    decreases |xs|
  {
    if xs != [] {
      var x := xs[0];
      assert x in multiset(ys);
      var j :| 0 <= j < |ys| && ys[j] == x;
      var rest := ys[..j] + ys[j + 1..];
      RemoveAt(ys, j);
      HeadTail(xs);
      MultisetCancel(multiset(xs[1..]), multiset(rest), x);
      MapMultisetSubset(f, xs[1..], rest);
      MapMultisetRemove(f, ys, j);
      HeadTail(Map(f, xs));
      assert Map(f, xs)[1..] == Map(f, xs[1..]);
      MultisetAddSubset(multiset(Map(f, xs[1..])), multiset(Map(f, rest)), f(x));
    }
  }

  /** Mapping keeps multiset equality: permuted inputs give permuted images. */
  lemma MapMultisetEqual<A, B>(f: A -> B, xs: seq<A>, ys: seq<A>)
    requires multiset(xs) == multiset(ys)
    ensures multiset(Map(f, xs)) == multiset(Map(f, ys))
  {
    MapMultisetSubset(f, xs, ys);
    MapMultisetSubset(f, ys, xs);
  }
}
