/** Generic sequence operations: `Array.prototype.filter`, subsequences and flattening. */
module Seqs {

  /** `xs` can be obtained from `ys` by deleting elements, keeping the order of the rest. */
  predicate IsSubsequence<T(==)>(xs: seq<T>, ys: seq<T>)
  {
    if xs == [] then true
    else if ys == [] then false
    else (xs[0] == ys[0] && IsSubsequence(xs[1..], ys[1..])) || IsSubsequence(xs, ys[1..])
  }

  /** A prefix keeps the order of what it keeps. */
  lemma {:induction false} PrefixIsSubsequence<T>(xs: seq<T>, n: nat)
    requires n <= |xs|
    ensures IsSubsequence(xs[..n], xs)
  {
    if n > 0 {
      PrefixIsSubsequence(xs[1..], n - 1);
      assert xs[..n][1..] == xs[1..][..n - 1];
    }
  }

  /** Being a subsequence is transitive. */
  lemma {:induction false} SubsequenceTrans<T>(xs: seq<T>, ys: seq<T>, zs: seq<T>)
    requires IsSubsequence(xs, ys) && IsSubsequence(ys, zs)
    ensures IsSubsequence(xs, zs)
    decreases |zs|
  {
    if xs != [] && zs != [] {
      if ys[0] == zs[0] && IsSubsequence(ys[1..], zs[1..]) {
        if xs[0] == ys[0] && IsSubsequence(xs[1..], ys[1..]) {
          SubsequenceTrans(xs[1..], ys[1..], zs[1..]);
        } else {
          SubsequenceTrans(xs, ys[1..], zs[1..]);
        }
      } else {
        SubsequenceTrans(xs, ys, zs[1..]);
      }
    }
  }

  /** `xs.filter(keep)`: the elements that satisfy `keep`, in their original order. */
  function Filter<T(==,!new)>(xs: seq<T>, keep: T -> bool): (r: seq<T>)
    ensures |r| <= |xs|
    ensures forall x :: x in r <==> x in xs && keep(x)
    ensures IsSubsequence(r, xs)
  {
    if xs == [] then []
    else
      var rest := Filter(xs[1..], keep);
      if keep(xs[0]) then
        assert ([xs[0]] + rest)[1..] == rest;
        [xs[0]] + rest
      else rest
  }

  /** The filter keeps every passing element as often as it occurs and drops every other
      one entirely; together with `IsSubsequence` this determines the filter's result. */
  lemma {:induction false} FilterCounts<T(!new)>(xs: seq<T>, keep: T -> bool, x: T)
    ensures multiset(Filter(xs, keep))[x] == if keep(x) then multiset(xs)[x] else 0
  {
    if xs != [] {
      FilterCounts(xs[1..], keep, x);
      assert xs == [xs[0]] + xs[1..];
      assert multiset(xs) == multiset{xs[0]} + multiset(xs[1..]);
      if keep(xs[0]) {
        assert multiset(Filter(xs, keep)) == multiset{xs[0]} + multiset(Filter(xs[1..], keep));
      }
    }
  }

  /** Filtering twice with the same test is filtering once. */
  lemma {:induction false} FilterIdempotent<T(!new)>(xs: seq<T>, keep: T -> bool)
    ensures Filter(Filter(xs, keep), keep) == Filter(xs, keep)
  {
    if xs != [] {
      FilterIdempotent(xs[1..], keep);
      if keep(xs[0]) {
        assert ([xs[0]] + Filter(xs[1..], keep))[1..] == Filter(xs[1..], keep);
      }
    }
  }

  /** A filter that keeps every element is the identity. */
  lemma {:induction false} FilterKeepsAll<T(!new)>(xs: seq<T>, keep: T -> bool)
    requires forall i :: 0 <= i < |xs| ==> keep(xs[i])
    ensures Filter(xs, keep) == xs
  {
    if xs != [] {
      FilterKeepsAll(xs[1..], keep);
      assert xs == [xs[0]] + xs[1..];
    }
  }

  /** When the first `m` elements all pass, the filter starts with exactly those elements. */
  lemma {:induction false} FilterKeptPrefix<T(!new)>(xs: seq<T>, keep: T -> bool, m: nat)
    requires m <= |xs|
    requires forall i :: 0 <= i < m ==> keep(xs[i])
    ensures m <= |Filter(xs, keep)|
    ensures Filter(xs, keep)[..m] == xs[..m]
  {
    if m > 0 {
      FilterKeptPrefix(xs[1..], keep, m - 1);
      FilterKeptHead(xs, keep);
      PrefixStep(xs, Filter(xs[1..], keep), Filter(xs, keep), m);
    }
  }

  lemma FilterKeptHead<T(!new)>(xs: seq<T>, keep: T -> bool)
    requires xs != [] && keep(xs[0])
    ensures Filter(xs, keep) == [xs[0]] + Filter(xs[1..], keep)
  {
  }

  /** A sequence that starts like `xs` after its first element, with that element put
      back in front, starts like `xs`. */
  lemma PrefixStep<T>(xs: seq<T>, f: seq<T>, r: seq<T>, m: nat)
    requires 0 < m <= |xs| && r == [xs[0]] + f
    requires m - 1 <= |f| && f[..m - 1] == xs[1..][..m - 1]
    ensures m <= |r| && r[..m] == xs[..m]
  {
    assert xs == [xs[0]] + xs[1..];
    ConsPrefix(xs[0], f, m);
    ConsPrefix(xs[0], xs[1..], m);
  }

  lemma ConsPrefix<T>(x: T, ys: seq<T>, m: nat)
    requires 0 < m <= |ys| + 1
    ensures ([x] + ys)[..m] == [x] + ys[..m - 1]
  {
  }

  /** Concatenation of a sequence of sequences (`[].concat(...xss)`). */
  function Flatten<T>(xss: seq<seq<T>>): seq<T>
  {
    if xss == [] then [] else xss[0] + Flatten(xss[1..])
  }

  lemma {:induction false} FlattenAppend<T>(xss: seq<seq<T>>, ys: seq<T>)
    ensures Flatten(xss + [ys]) == Flatten(xss) + ys
  {
    if xss != [] {
      assert (xss + [ys])[1..] == xss[1..] + [ys];
      FlattenAppend(xss[1..], ys);
    }
  }

  /** Every element of every inner sequence occurs in the flattening. */
  lemma {:induction false} FlattenMember<T>(xss: seq<seq<T>>, k: nat, j: nat)
    requires k < |xss| && j < |xss[k]|
    ensures xss[k][j] in Flatten(xss)
  {
    if k > 0 {
      FlattenMember(xss[1..], k - 1, j);
    } else {
      assert Flatten(xss) == xss[0] + Flatten(xss[1..]);
      assert Flatten(xss)[j] == xss[0][j];
    }
  }
}
