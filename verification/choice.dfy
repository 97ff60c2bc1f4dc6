/** The random choices the source makes, as explicit draws. `random.shuffle`
    is CPython's Fisher-Yates pass, with the generator's answers supplied as
    a parameter; since every permutation is reachable by some draws, a
    property proved for all draws holds for every outcome of the shuffle.
    `random.sample(population, k)` is modelled as the first k items of a
    shuffled population, which reaches every ordered choice of k distinct
    positions. */
module Choice {
  import opened Py
  import opened Seqs

  /** Draws for shuffling n items: step i (from n-1 down to 1) swaps
      position i with position draws[i] <= i. draws[0] is never used. */
  predicate ValidDraws(n: nat, draws: seq<nat>) {
    |draws| == n && forall i :: 0 <= i < n ==> draws[i] <= i
  }

  function Swap<T>(xs: seq<T>, i: nat, j: nat): (r: seq<T>)
    requires i < |xs| && j < |xs|
    ensures |r| == |xs|
    ensures multiset(r) == multiset(xs)
    ensures Distinct(xs) ==> Distinct(r)
  {
    var r := xs[i := xs[j]][j := xs[i]];
    assert forall a :: 0 <= a < |xs| ==> r[a] == xs[if a == i then j else if a == j then i else a];
    r
  }

  /** The swaps random.shuffle performs for positions top-1 down to 1. */
  function ShuffleSteps<T>(xs: seq<T>, top: nat, draws: seq<nat>): (r: seq<T>)
    requires top <= |xs| && ValidDraws(|xs|, draws)
    ensures |r| == |xs|
    ensures multiset(r) == multiset(xs)
    ensures Distinct(xs) ==> Distinct(r)
    decreases top
  {
    if top <= 1 then xs
    else ShuffleSteps(Swap(xs, top - 1, draws[top - 1]), top - 1, draws)
  }

  /** `random.shuffle(xs)`: a rearrangement of xs that keeps every item. */
  function Shuffle<T>(xs: seq<T>, draws: seq<nat>): (r: seq<T>)
    requires ValidDraws(|xs|, draws)
    ensures |r| == |xs|
    ensures multiset(r) == multiset(xs)
    ensures Distinct(xs) ==> Distinct(r)
  {
    ShuffleSteps(xs, |xs|, draws)
  }

  /** `random.sample(xs, k)`: k items at distinct positions of xs, or
      ValueError when k exceeds the population. */
  function Sample<T>(xs: seq<T>, k: nat, draws: seq<nat>): (r: Result<seq<T>>)
    requires ValidDraws(|xs|, draws)
    ensures r.Ok? <==> k <= |xs|
    ensures r.Err? ==> r.error == ValueError
    ensures r.Ok? ==> |r.value| == k && multiset(r.value) <= multiset(xs)
    ensures r.Ok? && Distinct(xs) ==> Distinct(r.value)
  {
    if k > |xs| then Err(ValueError)
    else
      var s := Shuffle(xs, draws);
      assert s == s[..k] + s[k..];
      Ok(s[..k])
  }

  /** Draws that leave the list in its original order, so that every
      precondition on draws can be met. */
  function IdentityDraws(n: nat): (draws: seq<nat>)
    ensures ValidDraws(n, draws)
  {
    Range(0, n)
  }

  /** The identity draws leave a list unchanged: the unshuffled order is
      one of the outcomes of random.shuffle. */
  lemma {:induction false} IdentityShuffle<T>(xs: seq<T>, top: nat)
    requires top <= |xs|
    ensures ShuffleSteps(xs, top, IdentityDraws(|xs|)) == xs
    decreases top
  {
    if top > 1 {
      var d := IdentityDraws(|xs|);
      assert Swap(xs, top - 1, d[top - 1]) == xs;
      IdentityShuffle(xs, top - 1);
    }
  }
}
