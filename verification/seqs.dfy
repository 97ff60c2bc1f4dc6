/** Sequence vocabulary shared by the modules: index ranges, distinctness,
    fixed-size blocks, flattening, sums, counts and the first maximum. */
module Seqs {
  import opened Arith

  /** Python's `list(range(lo, lo + n))`. */
  function Range(lo: int, n: nat): (r: seq<int>)
    ensures |r| == n
    ensures forall i :: 0 <= i < n ==> r[i] == lo + i
  {
    seq(n, i => lo + i)
  }

  predicate Distinct<T(==)>(xs: seq<T>) {
    forall i, j :: 0 <= i < j < |xs| ==> xs[i] != xs[j]
  }

  function Elems<T>(xs: seq<T>): set<T> {
    set x | x in xs
  }

  /** block is block i of size k of xs: `xs[i*k : (i+1)*k]`. */
  predicate IsBlock<T(==)>(xs: seq<T>, k: nat, i: nat, block: seq<T>) {
    (i + 1) * k <= |xs| && xs[i * k..(i + 1) * k] == block
  }

  /** Block i of size k has k entries. */
  lemma BlockLength<T>(xs: seq<T>, k: nat, i: nat, block: seq<T>)
    requires IsBlock(xs, k, i, block)
    ensures |block| == k
  {
    assert (i + 1) * k == i * k + k;
  }

  /** Entry j of block i is entry i*k + j of the whole. */
  lemma BlockEntry<T>(xs: seq<T>, k: nat, i: nat, block: seq<T>, j: nat)
    requires IsBlock(xs, k, i, block) && j < k
    ensures 0 <= i * k + j < |xs| && xs[i * k + j] == block[j]
  {
  }

  function Flatten<T>(xss: seq<seq<T>>): seq<T> {
    if |xss| == 0 then [] else Flatten(xss[..|xss| - 1]) + xss[|xss| - 1]
  }

  function Sum(xs: seq<nat>): nat {
    if |xs| == 0 then 0 else xs[0] + Sum(xs[1..])
  }

  function CountTrue(bs: seq<bool>): (n: nat)
    ensures n <= |bs|
  {
    if |bs| == 0 then 0 else CountTrue(bs[..|bs| - 1]) + (if bs[|bs| - 1] then 1 else 0)
  }

  /** k is where xs first reaches its maximum (the tie-break of numpy's
      argmax and of torch.max along a dimension). */
  ghost predicate IsFirstMax(xs: seq<real>, k: int) {
    && 0 <= k < |xs|
    && (forall j :: 0 <= j < |xs| ==> xs[j] <= xs[k])
    && (forall j :: 0 <= j < k ==> xs[j] < xs[k])
  }

  function ArgMax(xs: seq<real>): (k: nat)
    requires |xs| > 0
    ensures IsFirstMax(xs, k)
  {
    if |xs| == 1 then 0
    else
      var k := ArgMax(xs[..|xs| - 1]);
      assert forall j :: 0 <= j < |xs| - 1 ==> xs[..|xs| - 1][j] == xs[j];
      if xs[|xs| - 1] > xs[k] then |xs| - 1 else k
  }

  /** The first maximum is unique, so any index the source's argmax could
      return is the one ArgMax computes. */
  lemma FirstMaxUnique(xs: seq<real>, k1: int, k2: int)
    requires IsFirstMax(xs, k1) && IsFirstMax(xs, k2)
    ensures k1 == k2
  {
    assert xs[k1] == xs[k2];
  }

  /** A sequence without repeats has as many distinct elements as entries. */
  lemma {:induction false} DistinctCard<T>(xs: seq<T>)
    requires Distinct(xs)
    ensures |Elems(xs)| == |xs|
  {
    if |xs| > 0 {
      var init := xs[..|xs| - 1];
      assert Distinct(init);
      DistinctCard(init);
      assert Elems(xs) == Elems(init) + {xs[|xs| - 1]};
      assert xs[|xs| - 1] !in Elems(init);
    }
  }

  lemma {:induction false} FlattenAppend<T>(xss: seq<seq<T>>, ys: seq<T>)
    ensures Flatten(xss + [ys]) == Flatten(xss) + ys
  {
    assert (xss + [ys])[..|xss|] == xss;
  }

  /** Flattening blocks of equal size k puts block i at positions
      [i*k, (i+1)*k). */
  lemma {:induction false} FlattenBlocks<T>(xss: seq<seq<T>>, k: nat)
    requires forall i :: 0 <= i < |xss| ==> |xss[i]| == k
    ensures |Flatten(xss)| == |xss| * k
    ensures forall i :: 0 <= i < |xss| ==> IsBlock(Flatten(xss), k, i, xss[i])
  {
    if |xss| > 0 {
      var n := |xss| - 1;
      var init := xss[..n];
      FlattenBlocks(init, k);
      var g := Flatten(init);
      var f := Flatten(xss);
      assert f == g + xss[n];
      assert |g| == n * k;
      assert |f| == n * k + k;
      assert (n + 1) * k == n * k + k;
      forall i | 0 <= i < |xss|
        ensures IsBlock(f, k, i, xss[i])
      {
        if i < n {
          assert IsBlock(g, k, i, init[i]);
        }
        AppendedBlock(g, xss[n], k, n, i, xss[i]);
      }
    }
  }

  /** Appending a block of k after n blocks keeps the earlier blocks in
      place and puts the new one at block n. */
  lemma AppendedBlock<T>(g: seq<T>, last: seq<T>, k: nat, n: nat, i: nat, block: seq<T>)
    requires |g| == n * k && |last| == k && i <= n
    requires i < n ==> IsBlock(g, k, i, block)
    requires i == n ==> block == last
    ensures IsBlock(g + last, k, i, block)
  {
    BlockInside(i, n + 1, k);
    if i < n {
      BlockInside(i, n, k);
      SliceOfPrefix(g, last, i * k, (i + 1) * k);
    } else {
      assert (g + last)[n * k..(n + 1) * k] == last;
    }
  }

  lemma SliceOfPrefix<T>(a: seq<T>, b: seq<T>, lo: nat, hi: nat)
    requires lo <= hi <= |a|
    ensures (a + b)[lo..hi] == a[lo..hi]
  {
  }

  /** Block i of size k ends within n blocks when i < n. */
  lemma BlockInside(i: nat, n: nat, k: nat)
    requires i < n
    ensures i * k + k == (i + 1) * k <= n * k
  {
    MulLe(i + 1, n, k);
  }

  /** Entry k of count blocks of size f sits at position j of block i. */
  lemma BlockPosition(k: nat, f: nat, count: nat) returns (i: nat, j: nat)
    requires f >= 1 && k < count * f
    ensures i < count && j < f && k == i * f + j && (i + 1) * f <= count * f
    ensures i == k / f
  {
    i := k / f;
    j := k % f;
    MulCancelLt(i, count, f);
    BlockInside(i, count, f);
  }

  /** An item is in the flattening exactly when it is in one of the parts. */
  lemma {:induction false} FlattenMembers<T>(xss: seq<seq<T>>)
    ensures forall x :: x in Flatten(xss) ==> exists i :: 0 <= i < |xss| && x in xss[i]
    ensures forall x, i :: 0 <= i < |xss| && x in xss[i] ==> x in Flatten(xss)
  {
    if |xss| > 0 {
      var n := |xss| - 1;
      var init := xss[..n];
      FlattenMembers(init);
      assert Flatten(xss) == Flatten(init) + xss[n];
      forall x | x in Flatten(xss)
        ensures exists i :: 0 <= i < |xss| && x in xss[i]
      {
        if x in Flatten(init) {
          assert exists i :: 0 <= i < |init| && x in init[i];
          var i :| 0 <= i < |init| && x in init[i];
          assert x in xss[i];
        } else {
          assert x in xss[n];
        }
      }
      forall x, i | 0 <= i < |xss| && x in xss[i]
        ensures x in Flatten(xss)
      {
        if i < n {
          assert x in init[i];
        }
      }
    }
  }

  /** The part an item of the flattening comes from. */
  lemma FlattenPart<T>(xss: seq<seq<T>>, x: T) returns (i: nat)
    requires x in Flatten(xss)
    ensures i < |xss| && x in xss[i]
  {
    FlattenMembers(xss);
    i :| 0 <= i < |xss| && x in xss[i];
  }

  /** Parts without repeats whose items never meet flatten to a sequence
      without repeats. */
  lemma {:induction false} FlattenDistinct<T>(xss: seq<seq<T>>)
    requires forall i :: 0 <= i < |xss| ==> Distinct(xss[i])
    requires forall i, j, x :: 0 <= i < j < |xss| && x in xss[i] ==> x !in xss[j]
    ensures Distinct(Flatten(xss))
  {
    if |xss| > 0 {
      var n := |xss| - 1;
      var init := xss[..n];
      FlattenDistinct(init);
      FlattenMembers(init);
      var f := Flatten(xss);
      var g := Flatten(init);
      assert f == g + xss[n];
      forall a, b | 0 <= a < b < |f|
        ensures f[a] != f[b]
      {
        if b >= |g| && a < |g| {
          assert f[a] in g;
          assert exists i :: 0 <= i < |init| && f[a] in init[i];
          var i :| 0 <= i < |init| && f[a] in init[i];
          assert f[b] in xss[n];
        }
      }
    }
  }
}
