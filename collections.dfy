/**
 * Concatenation of a sequence of lists (what repeated `append(jobs, xs...)`
 * builds) and the facts about it that do not depend on the order of the lists.
 */
module Collections {

  /** The concatenation of `ss`, appending each list at the end in turn. */
  function Flatten<T>(ss: seq<seq<T>>): seq<T> {
    if ss == [] then [] else Flatten(ss[..|ss| - 1]) + ss[|ss| - 1]
  }

  /** The sum of the lengths of the lists in `ss`. */
  function TotalLength<T>(ss: seq<seq<T>>): nat {
    if ss == [] then 0 else |ss[0]| + TotalLength(ss[1..])
  }

  lemma {:induction false} FlattenConcat<T>(a: seq<seq<T>>, b: seq<seq<T>>)
    ensures Flatten(a + b) == Flatten(a) + Flatten(b)
    decreases |b|
  {
    if b == [] {
      assert a + b == a;
    } else {
      var b' := b[..|b| - 1];
      DropLastOfConcat(a, b);
      FlattenConcat(a, b');
    }
  }

  /** The length of a concatenation is the sum of the parts' lengths. */
  lemma {:induction false} FlattenLength<T>(ss: seq<seq<T>>)
    ensures |Flatten(ss)| == TotalLength(ss)
    decreases |ss|
  {
    if ss != [] {
      assert ss == [ss[0]] + ss[1..];
      FlattenConcat([ss[0]], ss[1..]);
      assert [ss[0]][..0] == [];
      FlattenLength(ss[1..]);
    }
  }

  /** Concatenating the same lists in any order gives the same multiset of elements. */
  lemma {:induction false} FlattenPermutation<T>(a: seq<seq<T>>, b: seq<seq<T>>)
    requires multiset(a) == multiset(b)
    ensures multiset(Flatten(a)) == multiset(Flatten(b))
    decreases |a|
  {
    if a == [] {
      assert |b| == |multiset(b)| == 0;
    } else {
      var x := a[|a| - 1];
      var a' := a[..|a| - 1];
      LastOf(a);
      assert x in multiset(b);
      var k :| 0 <= k < |b| && b[k] == x;
      RemoveAt(b, k);
      var b' := b[..k] + b[k + 1..];
      assert multiset(a) == multiset(a') + multiset{x};
      assert multiset(a') == multiset(a) - multiset{x} == multiset(b');
      FlattenPermutation(a', b');
      FlattenRemove(b, k);
    }
  }

  /** Taking list `k` out of a concatenation takes its elements out of the multiset. */
  lemma FlattenRemove<T>(b: seq<seq<T>>, k: nat)
    requires k < |b|
    ensures multiset(Flatten(b)) == multiset(Flatten(b[..k] + b[k + 1..])) + multiset(b[k])
  {
    var front, x, back := b[..k], b[k], b[k + 1..];
    Around(b, k);
    FlattenConcat(front + [x], back);
    FlattenSnoc(front, x);
    FlattenConcat(front, back);
    var f, g := Flatten(front), Flatten(back);
    assert Flatten(b) == f + x + g;
    assert multiset(f + x + g) == multiset(f) + multiset(x) + multiset(g);
    assert multiset(f + g) == multiset(f) + multiset(g);
  }

  lemma FlattenSnoc<T>(a: seq<seq<T>>, x: seq<T>)
    ensures Flatten(a + [x]) == Flatten(a) + x
  {
    assert (a + [x])[..|a|] == a;
  }

  /** `a` and `b` hold the same number of lists, and list `k` of `a` is a
      permutation of list `k` of `b`. */
  predicate PointwisePermutation<T(==)>(a: seq<seq<T>>, b: seq<seq<T>>) {
    |a| == |b| && forall k :: 0 <= k < |a| ==> multiset(a[k]) == multiset(b[k])
  }

  lemma PointwisePermutationSnoc<T>(a: seq<seq<T>>, b: seq<seq<T>>, x: seq<T>, y: seq<T>)
    requires PointwisePermutation(a, b) && multiset(x) == multiset(y)
    ensures PointwisePermutation(a + [x], b + [y])
  {
  }

  /** Concatenations of lists that agree pairwise as multisets agree as multisets. */
  lemma {:induction false} FlattenPointwise<T>(a: seq<seq<T>>, b: seq<seq<T>>)
    requires PointwisePermutation(a, b)
    ensures multiset(Flatten(a)) == multiset(Flatten(b))
    decreases |a|
  {
    if a != [] {
      FlattenPointwise(a[..|a| - 1], b[..|b| - 1]);
    }
  }

  /** Every element of a concatenation comes from one of the lists. */
  lemma {:induction false} FlattenMember<T>(ss: seq<seq<T>>, x: T)
    requires x in Flatten(ss)
    ensures exists k :: 0 <= k < |ss| && x in ss[k]
    decreases |ss|
  {
    if x !in ss[|ss| - 1] {
      FlattenMember(ss[..|ss| - 1], x);
      var k :| 0 <= k < |ss| - 1 && x in ss[..|ss| - 1][k];
      assert x in ss[k];
    }
  }

  /** Lists of the same lengths, pairwise, have the same total length. */
  lemma {:induction false} TotalLengthPointwise<A, B>(a: seq<seq<A>>, b: seq<seq<B>>)
    requires |a| == |b|
    requires forall k :: 0 <= k < |a| ==> |a[k]| == |b[k]|
    ensures TotalLength(a) == TotalLength(b)
    decreases |a|
  {
    if a != [] {
      TotalLengthPointwise(a[1..], b[1..]);
    }
  }

  lemma DropLastOfConcat<T>(a: seq<T>, b: seq<T>)
    requires b != []
    ensures (a + b)[..|a + b| - 1] == a + b[..|b| - 1]
    ensures (a + b)[|a + b| - 1] == b[|b| - 1]
  {
  }

  /** A non-empty sequence is its front followed by its last element. */
  lemma LastOf<T>(s: seq<T>)
    requires s != []
    ensures s == s[..|s| - 1] + [s[|s| - 1]]
    ensures multiset(s) == multiset(s[..|s| - 1]) + multiset{s[|s| - 1]}
  {
  }

  lemma TakeOneMore<T>(s: seq<T>, i: nat)
    requires i < |s|
    ensures s[..i + 1] == s[..i] + [s[i]]
  {
  }

  lemma TakeAll<T>(s: seq<T>)
    ensures s[..|s|] == s
  {
  }

  lemma FrontOfSnoc<T>(s: seq<T>, x: T)
    ensures (s + [x])[..|s|] == s
  {
  }

  /** A sequence is what comes before index `k`, the element at `k`, and what follows. */
  lemma Around<T>(s: seq<T>, k: nat)
    requires k < |s|
    ensures s == (s[..k] + [s[k]]) + s[k + 1..]
  {
  }

  /** Taking out the element at `k` takes one copy of it out of the multiset. */
  lemma RemoveAt<T>(s: seq<T>, k: nat)
    requires k < |s|
    ensures multiset(s) == multiset(s[..k] + s[k + 1..]) + multiset{s[k]}
  {
    Around(s, k);
  }

  /** `f` applied to each element of `s`, in order. */
  function Map<A, B>(f: A -> B, s: seq<A>): (r: seq<B>)
    ensures |r| == |s|
    ensures forall i :: 0 <= i < |s| ==> r[i] == f(s[i])
  {
    seq(|s|, i requires 0 <= i < |s| => f(s[i]))
  }

  lemma MapRemove<A, B>(f: A -> B, s: seq<A>, k: nat)
    requires k < |s|
    ensures Map(f, s)[..k] + Map(f, s)[k + 1..] == Map(f, s[..k] + s[k + 1..])
  {
  }

  /** When `ys` is `Map(f, xs)` up to order, its last element is the image of some
      `xs[k]`, and the rest of `ys` is the image of the rest of `xs`, up to order. */
  lemma MapPick<A, B>(f: A -> B, xs: seq<A>, ys: seq<B>) returns (k: nat)
    requires ys != [] && multiset(ys) == multiset(Map(f, xs))
    ensures k < |xs| && f(xs[k]) == ys[|ys| - 1]
    ensures multiset(ys[..|ys| - 1]) == multiset(Map(f, xs[..k] + xs[k + 1..]))
    ensures multiset(xs) == multiset(xs[..k] + xs[k + 1..]) + multiset{xs[k]}
  {
    var y := ys[|ys| - 1];
    LastOf(ys);
    assert y in multiset(Map(f, xs));
    k :| 0 <= k < |xs| && Map(f, xs)[k] == y;
    RemoveAt(xs, k);
    RemoveAt(Map(f, xs), k);
    MapRemove(f, xs, k);
    assert multiset(ys[..|ys| - 1]) == multiset(ys) - multiset{y};
  }

  /** Every element of `Map(f, xs)` is the image of an element of `xs`. */
  lemma MapMemberInverse<A, B>(f: A -> B, xs: seq<A>, y: B) returns (x: A)
    requires y in Map(f, xs)
    ensures x in xs && y == f(x)
  {
    var k :| 0 <= k < |xs| && Map(f, xs)[k] == y;
    x := xs[k];
  }

  /** Mapping one more element adds its image at the end. */
  lemma MapSnoc<A, B>(f: A -> B, s: seq<A>, k: nat)
    requires k < |s|
    ensures Map(f, s[..k + 1]) == Map(f, s[..k]) + [f(s[k])]
    ensures multiset(Map(f, s[..k + 1])) == multiset(Map(f, s[..k])) + multiset{f(s[k])}
  {
  }
}
