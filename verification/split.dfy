/** The episode bookkeeping of the training and validation loops
    (train.py): splitting a loaded batch into query and support indices,
    the constant length tensors handed to the CTC loss, the one-hot targets
    of the MSE loss, and the reward and accuracy counting of validation.
    The networks, the losses and the optimiser steps are not modelled. */
module Split {
  import opened Py
  import opened Seqs
  import opened Arith
  import opened Choice
  import opened Ctc
  import opened Episodes

  // ---------------------------------------------------------------------
  // Support/query split
  // ---------------------------------------------------------------------

  /** The indices one class contributes to the queries and to the support
      set; for the whole episode, all queries and all support indices. */
  datatype Episode = Episode(query: seq<int>, support: seq<int>)

  /** An item is in `list(range(lo, lo + n))` exactly when it lies in
      [lo, lo + n). */
  lemma RangeMembers(lo: int, n: nat)
    ensures Distinct(Range(lo, n))
    ensures forall x :: x in Range(lo, n) <==> lo <= x < lo + n
  {
    var r := Range(lo, n);
    forall x | lo <= x < lo + n
      ensures x in r
    {
      assert r[x - lo] == x;
    }
  }

  /** The items of index that q does not pick, in index order: the
      contents of `set(index) - set(q)`. */
  function Complement(index: seq<int>, q: seq<int>): (r: seq<int>)
    ensures forall x :: x in r <==> x in index && x !in q
    ensures Distinct(index) ==> Distinct(r)
  {
    if |index| == 0 then []
    else
      var n := |index| - 1;
      var init := Complement(index[..n], q);
      assert index == index[..n] + [index[n]];
      assert Distinct(index) ==> index[n] !in index[..n] && Distinct(index[..n]);
      init + (if index[n] in q then [] else [index[n]])
  }

  /** Removing distinct picks from distinct items leaves the difference
      of the counts. */
  lemma ComplementSize(index: seq<int>, q: seq<int>)
    requires Distinct(index) && Distinct(q)
    requires forall x :: x in q ==> x in index
    ensures |Complement(index, q)| == |index| - |q|
  {
    var r := Complement(index, q);
    DistinctCard(index);
    DistinctCard(q);
    DistinctCard(r);
    assert Elems(index) == Elems(r) + Elems(q);
    assert Elems(r) * Elems(q) == {};
  }

  /** p splits index: neither list repeats an item, no item is in both,
      and together they hold exactly the items of index. */
  ghost predicate Separates(p: Episode, index: seq<int>) {
    && Distinct(p.query) && Distinct(p.support)
    && (forall x :: x in p.query ==> x !in p.support)
    && (forall x :: x in p.query || x in p.support <==> x in index)
  }

  /** Picks from distinct items and the rest, in any order, split them. */
  lemma PickAndRest(index: seq<int>, q: seq<int>, rest: seq<int>)
    requires Distinct(index) && Distinct(q) && multiset(q) <= multiset(index)
    requires multiset(rest) == multiset(Complement(index, q))
    ensures Separates(Episode(q, rest), index)
  {
    var c := Complement(index, q);
    assert forall x :: x in rest <==> x in multiset(c);
    assert forall x :: x in q ==> x in multiset(index);
    assert Distinct(c);
    RearrangedDistinct(c, rest);
  }

  /** A rearrangement has the same members. */
  lemma SameMembers(a: seq<int>, b: seq<int>)
    requires multiset(a) == multiset(b)
    ensures forall x :: x in a <==> x in b
  {
    assert forall x :: x in a <==> x in multiset(a);
    assert forall x :: x in b <==> x in multiset(b);
  }

  /** A rearrangement of a sequence without repeats has none either. */
  lemma RearrangedDistinct(a: seq<int>, b: seq<int>)
    requires Distinct(a) && multiset(a) == multiset(b)
    ensures Distinct(b)
  {
    forall i, j | 0 <= i < j < |b|
      ensures b[i] != b[j]
    {
      if b[i] == b[j] {
        var x := b[i];
        assert multiset(b)[x] >= 2 by {
          assert b == b[..i] + [x] + b[i + 1..j] + [x] + b[j + 1..];
        }
        DistinctCount(a, x);
      }
    }
  }

  /** An item occurs at most once in a sequence without repeats. */
  lemma {:induction false} DistinctCount(a: seq<int>, x: int)
    requires Distinct(a)
    ensures multiset(a)[x] <= 1
  {
    if |a| > 0 {
      var n := |a| - 1;
      assert a == a[..n] + [a[n]];
      DistinctCount(a[..n], x);
      assert a[n] !in a[..n];
    }
  }

  /** The draws one class of the split consumes: those of
      `random.sample(index, QUERY_NUM)` and those that fix the order in
      which the set difference is listed. */
  predicate ClassDrawsOk(S: nat, Q: nat, sampleDraws: seq<nat>, orderDraws: seq<nat>) {
    ValidDraws(S + Q, sampleDraws) && ValidDraws(S, orderDraws)
  }

  /** One pass of the split loop for class i: Q query indices sampled from
      the class's block `range((S+Q)*i, (S+Q)*(i+1))` and the S indices
      left over, listed in the order the set happens to iterate. */
  function ClassPick(i: nat, S: nat, Q: nat, sampleDraws: seq<nat>, orderDraws: seq<nat>): (p: Episode)
    requires ClassDrawsOk(S, Q, sampleDraws, orderDraws)
    ensures |p.query| == Q && |p.support| == S
    ensures Separates(p, Range(i * (S + Q), S + Q))
  {
    var index := Range(i * (S + Q), S + Q);
    RangeMembers(i * (S + Q), S + Q);
    var q := Sample(index, Q, sampleDraws).value;
    assert forall x :: x in q ==> x in multiset(index);
    ComplementSize(index, q);
    var rest := Shuffle(Complement(index, q), orderDraws);
    PickAndRest(index, q, rest);
    Episode(q, rest)
  }

  predicate DrawsOk(C: nat, S: nat, Q: nat, sampleDraws: seq<seq<nat>>, orderDraws: seq<seq<nat>>, shuffleDraws: seq<nat>) {
    && |sampleDraws| == C && |orderDraws| == C
    && (forall i :: 0 <= i < C ==> ClassDrawsOk(S, Q, sampleDraws[i], orderDraws[i]))
    && ValidDraws(C * Q, shuffleDraws)
  }

  /** The per-class picks of the loop, class 0 first: part i splits class
      i's block into Q queries and S support indices. */
  function Picks(C: nat, S: nat, Q: nat, sampleDraws: seq<seq<nat>>, orderDraws: seq<seq<nat>>): (ps: seq<Episode>)
    requires |sampleDraws| == C && |orderDraws| == C
    requires forall i :: 0 <= i < C ==> ClassDrawsOk(S, Q, sampleDraws[i], orderDraws[i])
    ensures |ps| == C && SplitsBlocks(ps, S + Q) && PartSizes(ps, S, Q)
  {
    var ps := seq(C, i requires 0 <= i < C => ClassPick(i, S, Q, sampleDraws[i], orderDraws[i]));
    assert forall i :: 0 <= i < C ==> ps[i] == ClassPick(i, S, Q, sampleDraws[i], orderDraws[i]);
    PicksFacts(ps, C, S, Q, sampleDraws, orderDraws);
    ps
  }

  /** Each class's pick carries its sizes and its split of the block. */
  lemma PicksFacts(ps: seq<Episode>, C: nat, S: nat, Q: nat, sampleDraws: seq<seq<nat>>, orderDraws: seq<seq<nat>>)
    requires |sampleDraws| == C && |orderDraws| == C
    requires forall i :: 0 <= i < C ==> ClassDrawsOk(S, Q, sampleDraws[i], orderDraws[i])
    requires |ps| == C && forall i :: 0 <= i < C ==> ps[i] == ClassPick(i, S, Q, sampleDraws[i], orderDraws[i])
    ensures SplitsBlocks(ps, S + Q) && PartSizes(ps, S, Q)
  {
    forall i | 0 <= i < C
      ensures |ps[i].query| == Q && |ps[i].support| == S
      ensures Separates(ps[i], Range(i * (S + Q), S + Q))
    {
      var p := ClassPick(i, S, Q, sampleDraws[i], orderDraws[i]);
      assert ps[i] == p;
    }
  }

  /** Every part holds Q queries and S support indices. */
  predicate PartSizes(ps: seq<Episode>, S: nat, Q: nat) {
    forall i :: 0 <= i < |ps| ==> |ps[i].query| == Q && |ps[i].support| == S
  }

  function Queries(ps: seq<Episode>): (r: seq<seq<int>>)
    ensures |r| == |ps| && forall i :: 0 <= i < |ps| ==> r[i] == ps[i].query
  {
    seq(|ps|, i requires 0 <= i < |ps| => ps[i].query)
  }

  function Supports(ps: seq<Episode>): (r: seq<seq<int>>)
    ensures |r| == |ps| && forall i :: 0 <= i < |ps| ==> r[i] == ps[i].support
  {
    seq(|ps|, i requires 0 <= i < |ps| => ps[i].support)
  }

  /** Part i of ps splits block i of size m, for every i. */
  ghost predicate SplitsBlocks(ps: seq<Episode>, m: nat) {
    forall i :: 0 <= i < |ps| ==> Separates(ps[i], Range(i * m, m))
  }

  /** The split of train.py for an episode of C classes with S support and
      Q query videos each: the support indices class by class, and the
      query picks of all classes shuffled together. */
  function SplitEpisode(C: nat, S: nat, Q: nat, sampleDraws: seq<seq<nat>>, orderDraws: seq<seq<nat>>,
                        shuffleDraws: seq<nat>): (e: Episode)
    requires DrawsOk(C, S, Q, sampleDraws, orderDraws, shuffleDraws)
    ensures |e.query| == C * Q && |e.support| == C * S
    ensures multiset(e.query) == multiset(Flatten(Queries(Picks(C, S, Q, sampleDraws, orderDraws))))
  {
    var ps := Picks(C, S, Q, sampleDraws, orderDraws);
    assert forall i :: 0 <= i < C ==> |Queries(ps)[i]| == Q && |Supports(ps)[i]| == S;
    FlattenBlocks(Queries(ps), Q);
    FlattenBlocks(Supports(ps), S);
    Episode(Shuffle(Flatten(Queries(ps)), shuffleDraws), Flatten(Supports(ps)))
  }

  /** Items of part i lie in block i. */
  lemma PartsInClass(ps: seq<Episode>, m: nat)
    requires SplitsBlocks(ps, m)
    ensures forall i, x :: 0 <= i < |ps| && x in Queries(ps)[i] ==> InClass(x, i, m)
    ensures forall i, x :: 0 <= i < |ps| && x in Supports(ps)[i] ==> InClass(x, i, m)
  {
    forall i, x | 0 <= i < |ps| && x in Queries(ps)[i]
      ensures InClass(x, i, m)
    {
      PartInClass(ps, m, i, x);
    }
    forall i, x | 0 <= i < |ps| && x in Supports(ps)[i]
      ensures InClass(x, i, m)
    {
      PartInClass(ps, m, i, x);
    }
  }

  lemma PartInClass(ps: seq<Episode>, m: nat, i: nat, x: int)
    requires SplitsBlocks(ps, m) && i < |ps|
    requires x in ps[i].query || x in ps[i].support
    ensures InClass(x, i, m)
  {
    RangeMembers(i * m, m);
    assert Separates(ps[i], Range(i * m, m));
  }

  /** Parts drawn from different class blocks never share an index. */
  lemma PartsApart(parts: seq<seq<int>>, m: nat)
    requires forall i, x :: 0 <= i < |parts| && x in parts[i] ==> InClass(x, i, m)
    ensures forall i, j, x :: 0 <= i < j < |parts| && x in parts[i] ==> x !in parts[j]
  {
    forall i, j, x | 0 <= i < j < |parts| && x in parts[i]
      ensures x !in parts[j]
    {
      ClassUnique(x, i, j, m);
    }
  }

  /** The queries and the support indices of parts that split consecutive
      blocks share no index. */
  lemma FlatApart(ps: seq<Episode>, m: nat)
    requires SplitsBlocks(ps, m)
    ensures forall x :: x in Flatten(Queries(ps)) ==> x !in Flatten(Supports(ps))
  {
    forall x | x in Flatten(Queries(ps))
      ensures x !in Flatten(Supports(ps))
    {
      var i := FlattenPart(Queries(ps), x);
      NotInSupports(ps, m, i, x);
    }
  }

  /** A query of class i is no support index of any class. */
  lemma NotInSupports(ps: seq<Episode>, m: nat, i: nat, x: int)
    requires SplitsBlocks(ps, m) && i < |ps| && x in ps[i].query
    ensures x !in Flatten(Supports(ps))
  {
    PartInClass(ps, m, i, x);
    forall j | 0 <= j < |ps|
      ensures x !in Supports(ps)[j]
    {
      if j == i {
        assert Separates(ps[i], Range(i * m, m));
      } else {
        ClassUnique(x, i, j, m);
        OutsideBlock(ps, m, j, x);
      }
    }
    FlattenMembers(Supports(ps));
  }

  /** An index outside block j is in neither list of part j. */
  lemma OutsideBlock(ps: seq<Episode>, m: nat, j: nat, x: int)
    requires SplitsBlocks(ps, m) && j < |ps| && !InClass(x, j, m)
    ensures x !in ps[j].query && x !in ps[j].support
  {
    RangeMembers(j * m, m);
    assert Separates(ps[j], Range(j * m, m));
  }

  /** Neither flattening repeats an index. */
  lemma FlatDistinct(ps: seq<Episode>, m: nat)
    requires SplitsBlocks(ps, m)
    ensures Distinct(Flatten(Queries(ps))) && Distinct(Flatten(Supports(ps)))
  {
    var qs, ss := Queries(ps), Supports(ps);
    PartsInClass(ps, m);
    PartsApart(qs, m);
    PartsApart(ss, m);
    forall i | 0 <= i < |ps|
      ensures Distinct(qs[i]) && Distinct(ss[i])
    {
      assert Separates(ps[i], Range(i * m, m));
    }
    assert forall i, j, x :: 0 <= i < j < |qs| && x in qs[i] ==> x !in qs[j];
    assert forall i, j, x :: 0 <= i < j < |ss| && x in ss[i] ==> x !in ss[j];
    FlattenDistinct(qs);
    FlattenDistinct(ss);
  }

  /** Together the flattenings hold the indices of all the blocks. */
  lemma FlatCovers(ps: seq<Episode>, m: nat)
    requires SplitsBlocks(ps, m)
    ensures forall x :: x in Flatten(Queries(ps)) || x in Flatten(Supports(ps)) <==> 0 <= x < |ps| * m
  {
    PartsInClass(ps, m);
    forall x | x in Flatten(Queries(ps)) || x in Flatten(Supports(ps))
      ensures 0 <= x < |ps| * m
    {
      var i: nat;
      if x in Flatten(Queries(ps)) {
        i := FlattenPart(Queries(ps), x);
      } else {
        i := FlattenPart(Supports(ps), x);
      }
      BlockBefore(i, |ps|, m);
      MulLe(0, i, m);
    }
    forall x | 0 <= x < |ps| * m
      ensures x in Flatten(Queries(ps)) || x in Flatten(Supports(ps))
    {
      FlatHas(ps, m, x);
    }
  }

  lemma FlatHas(ps: seq<Episode>, m: nat, x: int)
    requires SplitsBlocks(ps, m) && 0 <= x < |ps| * m
    ensures x in Flatten(Queries(ps)) || x in Flatten(Supports(ps))
  {
    PositiveFactors(|ps|, m);
    var i := x / m;
    DivBounds(x, m);
    MulCancelLt(i, |ps|, m);
    RangeMembers(i * m, m);
    assert Separates(ps[i], Range(i * m, m));
    FlattenMembers(Queries(ps));
    FlattenMembers(Supports(ps));
    if x in ps[i].query {
      assert x in Queries(ps)[i];
    } else {
      assert x in Supports(ps)[i];
    }
  }

  lemma DivBounds(x: int, m: int)
    requires m > 0
    ensures (x / m) * m <= x < (x / m) * m + m
  {
  }

  /** Support position k holds an index of class k / S: the support list
      is class 0's support block, then class 1's, and so on, which the
      reshape to [class, sample, ...] relies on. */
  lemma SupportInClassOrder(C: nat, S: nat, Q: nat, sampleDraws: seq<seq<nat>>, orderDraws: seq<seq<nat>>,
                            shuffleDraws: seq<nat>)
    requires DrawsOk(C, S, Q, sampleDraws, orderDraws, shuffleDraws)
    ensures var e := SplitEpisode(C, S, Q, sampleDraws, orderDraws, shuffleDraws);
            forall i :: 0 <= i < C ==> IsBlock(e.support, S, i, Picks(C, S, Q, sampleDraws, orderDraws)[i].support)
    ensures S > 0 ==> forall k :: 0 <= k < C * S ==>
              InClass(SplitEpisode(C, S, Q, sampleDraws, orderDraws, shuffleDraws).support[k], k / S, S + Q)
  {
    var ps := Picks(C, S, Q, sampleDraws, orderDraws);
    SupportOrder(ps, S, Q, S + Q);
  }

  /** Flattened support parts of S items each keep the classes in order. */
  lemma SupportOrder(ps: seq<Episode>, S: nat, Q: nat, m: nat)
    requires SplitsBlocks(ps, m) && PartSizes(ps, S, Q)
    ensures |Flatten(Supports(ps))| == |ps| * S
    ensures forall i :: 0 <= i < |ps| ==> IsBlock(Flatten(Supports(ps)), S, i, ps[i].support)
    ensures S > 0 ==> forall k :: 0 <= k < |ps| * S ==> InClass(Flatten(Supports(ps))[k], k / S, m)
  {
    var ss := Supports(ps);
    assert forall i :: 0 <= i < |ss| ==> |ss[i]| == S;
    FlattenBlocks(ss, S);
    PartsInClass(ps, m);
    if S > 0 {
      forall k | 0 <= k < |ps| * S
        ensures InClass(Flatten(ss)[k], k / S, m)
      {
        var i, j := BlockPosition(k, S, |ps|);
        BlockEntry(Flatten(ss), S, i, ss[i], j);
        assert ss[i][j] in ss[i];
      }
    }
  }

  /** No index is both a query and a support video, and neither list
      repeats an index. */
  lemma SplitDisjoint(C: nat, S: nat, Q: nat, sampleDraws: seq<seq<nat>>, orderDraws: seq<seq<nat>>,
                      shuffleDraws: seq<nat>)
    requires DrawsOk(C, S, Q, sampleDraws, orderDraws, shuffleDraws)
    ensures var e := SplitEpisode(C, S, Q, sampleDraws, orderDraws, shuffleDraws);
            forall x :: x in e.query ==> x !in e.support
    ensures Distinct(SplitEpisode(C, S, Q, sampleDraws, orderDraws, shuffleDraws).query)
    ensures Distinct(SplitEpisode(C, S, Q, sampleDraws, orderDraws, shuffleDraws).support)
  {
    var ps := Picks(C, S, Q, sampleDraws, orderDraws);
    var e := SplitEpisode(C, S, Q, sampleDraws, orderDraws, shuffleDraws);
    FlatApart(ps, S + Q);
    FlatDistinct(ps, S + Q);
    SameMembers(e.query, Flatten(Queries(ps)));
    RearrangedDistinct(Flatten(Queries(ps)), e.query);
  }

  /** Together the two lists hold exactly the indices of the batch,
      `range(0, CLASS_NUM * (SAMPLE_NUM + QUERY_NUM))`. */
  lemma SplitCovers(C: nat, S: nat, Q: nat, sampleDraws: seq<seq<nat>>, orderDraws: seq<seq<nat>>,
                    shuffleDraws: seq<nat>)
    requires DrawsOk(C, S, Q, sampleDraws, orderDraws, shuffleDraws)
    ensures var e := SplitEpisode(C, S, Q, sampleDraws, orderDraws, shuffleDraws);
            forall x :: x in e.query || x in e.support <==> 0 <= x < C * (S + Q)
  {
    var ps := Picks(C, S, Q, sampleDraws, orderDraws);
    var e := SplitEpisode(C, S, Q, sampleDraws, orderDraws, shuffleDraws);
    FlatCovers(ps, S + Q);
    SameMembers(e.query, Flatten(Queries(ps)));
  }

  // ---------------------------------------------------------------------
  // Constant tensors of the CTC loss
  // ---------------------------------------------------------------------

  /** `input_lengths`: every query's log-probability sequence is WINDOW_NUM
      steps long. */
  function InputLengths(C: nat, Q: nat, W: nat): (r: seq<nat>)
    ensures |r| == C * Q && forall n :: 0 <= n < |r| ==> r[n] == W
  {
    seq(C * Q, n => W)
  }

  /** `target_lengths`: every query's target is one label long. */
  function TargetLengths(C: nat, Q: nat): (r: seq<nat>)
    ensures |r| == C * Q && forall n :: 0 <= n < |r| ==> r[n] == 1
  {
    seq(C * Q, n => 1)
  }

  /** With these target lengths the concatenated label tensor is read as
      one single-label target per query, the query's own label, and the
      lengths account for every label. */
  lemma TargetsAreLabels(labels: seq<int>, C: nat, Q: nat)
    requires |labels| == C * Q
    ensures Sum(TargetLengths(C, Q)) == |labels|
    ensures forall n :: 0 <= n < |labels| ==> Segments(labels, TargetLengths(C, Q), 0)[n] == [labels[n]]
  {
    var lengths := TargetLengths(C, Q);
    OnesPrefixSum(lengths, |lengths|);
    assert lengths[..|lengths|] == lengths;
    SingletonSegments(labels, lengths);
  }

  /** A one-label target fits any window of at least one step, which the
      CTC loss needs for a finite value. */
  lemma TargetsFitInputs(C: nat, Q: nat, W: nat)
    requires W >= 1
    ensures forall n :: 0 <= n < C * Q ==> TargetLengths(C, Q)[n] <= InputLengths(C, Q, W)[n]
  {
  }

  // ---------------------------------------------------------------------
  // One-hot targets of the MSE loss
  // ---------------------------------------------------------------------

  /** `torch.zeros(N, C).scatter_(1, labels - 1, 1)`: row n has a 1 at
      column labels[n] - 1 and 0 elsewhere. scatter_ raises RuntimeError
      for a column outside 0..C-1, i.e. a label outside 1..C. */
  function OneHot(labels: seq<int>, C: nat): (r: Result<seq<seq<int>>>)
    ensures r.Ok? <==> forall n :: 0 <= n < |labels| ==> 1 <= labels[n] <= C
    ensures r.Err? ==> r.error == RuntimeError
    ensures r.Ok? ==> |r.value| == |labels| && forall n :: 0 <= n < |labels| ==> |r.value[n]| == C
  {
    if forall n :: 0 <= n < |labels| ==> 1 <= labels[n] <= C then
      Ok(seq(|labels|, n requires 0 <= n < |labels| =>
        seq(C, c => if c == labels[n] - 1 then 1 else 0)))
    else Err(RuntimeError)
  }

  function AsReals(row: seq<int>): (r: seq<real>)
    ensures |r| == |row| && forall c :: 0 <= c < |row| ==> r[c] == row[c] as real
  {
    seq(|row|, c requires 0 <= c < |row| => row[c] as real)
  }

  /** Decoding a one-hot row as the MSE predictions are decoded (first
      maximum, plus one) gives back the label, and the row holds a single
      1: encoding then decoding is the identity on labels. */
  lemma OneHotRoundTrip(labels: seq<int>, C: nat)
    requires OneHot(labels, C).Ok?
    ensures forall n :: 0 <= n < |labels| ==> ArgMax(AsReals(OneHot(labels, C).value[n])) + 1 == labels[n]
    ensures forall n, c :: 0 <= n < |labels| && 0 <= c < C ==>
              (OneHot(labels, C).value[n][c] == 1 <==> c == labels[n] - 1)
  {
    var rows := OneHot(labels, C).value;
    forall n | 0 <= n < |labels|
      ensures ArgMax(AsReals(rows[n])) + 1 == labels[n]
    {
      var xs := AsReals(rows[n]);
      assert IsFirstMax(xs, labels[n] - 1);
      FirstMaxUnique(xs, ArgMax(xs), labels[n] - 1);
    }
  }

  // ---------------------------------------------------------------------
  // Validation rewards and accuracy
  // ---------------------------------------------------------------------

  /** `mse_rewards`: the number of positions whose predicted class index
      equals the 0-based truth `labels - 1`. Indexing the truth past its
      end raises IndexError. */
  function MseRewards(preds: seq<int>, labels: seq<int>): (r: Result<nat>)
    ensures r.Ok? <==> |preds| <= |labels|
    ensures r.Err? ==> r.error == IndexError
    ensures r.Ok? ==> r.value <= |preds|
    ensures r.Ok? ==> (r.value == |preds| <==> forall i :: 0 <= i < |preds| ==> preds[i] == labels[i] - 1)
  {
    if |preds| > |labels| then Err(IndexError)
    else
      var truth := seq(|preds|, i requires 0 <= i < |preds| => labels[i] - 1);
      CountEqualAll(preds, truth);
      Ok(CountEqual(preds, truth))
  }

  /** compute_score summed over pairs of equal-length lists; the decoder
      returns a numpy array, whose items reach compute_score as scalars. */
  function ScoreSum(preds: seq<int>, labels: seq<int>): (r: nat)
    requires |preds| == |labels|
  {
    if |preds| == 0 then 0
    else ScoreSum(preds[..|preds| - 1], labels[..|labels| - 1])
         + ComputeScore(Scalar(preds[|preds| - 1]), labels[|labels| - 1])
  }

  /** `ctc_rewards`: the scores over the zip of the decoded classes and the
      1-based labels, which stops at the shorter list. */
  function CtcRewards(preds: seq<int>, labels: seq<int>): (r: nat)
    ensures r <= Min(|preds|, |labels|)
    ensures r == Min(|preds|, |labels|) <==>
            forall i :: 0 <= i < Min(|preds|, |labels|) ==> preds[i] == labels[i]
  {
    var m := Min(|preds|, |labels|);
    ScoreSumCounts(preds[..m], labels[..m]);
    CountEqualAll(preds[..m], labels[..m]);
    ScoreSum(preds[..m], labels[..m])
  }

  /** The summed scores count the agreeing pairs. */
  lemma {:induction false} ScoreSumCounts(preds: seq<int>, labels: seq<int>)
    requires |preds| == |labels|
    ensures ScoreSum(preds, labels) == CountEqual(preds, labels)
  {
    if |preds| > 0 {
      var n := |preds| - 1;
      ScoreSumCounts(preds[..n], labels[..n]);
    }
  }

  /** When the CTC decoder answers one more than the MSE head everywhere
      (1-based against 0-based classes), both heads earn the same reward. */
  lemma RewardsAgree(msePreds: seq<int>, ctcPreds: seq<int>, labels: seq<int>)
    requires |msePreds| == |ctcPreds| == |labels|
    requires forall i :: 0 <= i < |labels| ==> ctcPreds[i] == msePreds[i] + 1
    ensures MseRewards(msePreds, labels) == Ok(CtcRewards(ctcPreds, labels))
  {
    var truth := seq(|msePreds|, i requires 0 <= i < |msePreds| => labels[i] - 1);
    ScoreSumCounts(ctcPreds[..|labels|], labels[..|labels|]);
    assert ctcPreds[..|labels|] == ctcPreds && labels[..|labels|] == labels;
    CountShift(msePreds, truth, ctcPreds, labels);
  }

  /** Adding one to both sides of every comparison changes no outcome. */
  lemma {:induction false} CountShift(a: seq<int>, b: seq<int>, a1: seq<int>, b1: seq<int>)
    requires |a| == |b| == |a1| == |b1|
    requires forall i :: 0 <= i < |a| ==> a1[i] == a[i] + 1 && b1[i] == b[i] + 1
    ensures CountEqual(a, b) == CountEqual(a1, b1)
  {
    if |a| > 0 {
      var n := |a| - 1;
      CountShift(a[..n], b[..n], a1[..n], b1[..n]);
    }
  }

  /** What numpy's true division of a reward count by the number of
      covered queries yields: the exact quotient, or, for a zero divisor,
      nan (0/0) or inf (a positive count over 0) with only a warning. */
  datatype Quotient = Finite(value: real) | NotANumber | Infinite

  /** `accuracy = total_rewards / total_num_covered` with the better of the
      two rewards, both numpy integers. */
  function Accuracy(mse: nat, ctc: nat, covered: int): (r: Quotient)
    ensures r.Finite? <==> covered != 0
    ensures r.NotANumber? <==> covered == 0 && mse == 0 && ctc == 0
    ensures r.Infinite? <==> covered == 0 && (mse > 0 || ctc > 0)
    ensures r.Finite? ==> r.value * covered as real == Max(mse, ctc) as real
    ensures covered > 0 && mse <= covered && ctc <= covered ==> r.Finite? && 0.0 <= r.value <= 1.0
    ensures covered > 0 && mse <= covered && ctc <= covered ==>
              (r == Finite(1.0) <==> mse == covered || ctc == covered)
  {
    if covered == 0 then
      if Max(mse, ctc) == 0 then NotANumber else Infinite
    else
      var v := Max(mse, ctc) as real / covered as real;
      DivIsOne(Max(mse, ctc) as real, covered as real);
      if covered > 0 && mse <= covered && ctc <= covered then
        UnitRatio(Max(mse, ctc) as real, covered as real);
        Finite(v)
      else
        Finite(v)
  }

  /** A ratio of a non-negative number to a larger positive one lies in [0, 1]. */
  lemma UnitRatio(a: real, b: real)
    requires 0.0 <= a <= b && b > 0.0
    ensures 0.0 <= a / b <= 1.0
  {
    assert a / b * b == a;
  }

  lemma DivIsOne(a: real, b: real)
    requires b != 0.0
    ensures a / b == 1.0 <==> a == b
    ensures (a / b) * b == a
  {
  }

  /** The accuracy of one validation episode from the MSE head's class
      indices, the CTC decoder's outcome and the episode's labels: the
      decoder's error first, then an IndexError from a short label list;
      an episode covering no query gives nan or inf, not an error. */
  function EpisodeAccuracy(msePreds: seq<int>, ctcPreds: Result<seq<int>>, labels: seq<int>, C: nat, Q: nat): (r: Result<Quotient>)
    ensures r.Ok? <==> ctcPreds.Ok? && |msePreds| <= |labels|
    ensures r.Err? && ctcPreds.Err? ==> r.error == ctcPreds.error
    ensures r.Err? && ctcPreds.Ok? ==> r.error == IndexError
    ensures r.Ok? ==> (r.value.Finite? <==> C * Q != 0)
    ensures r.Ok? && |labels| == 0 ==> r.value == (if C * Q == 0 then NotANumber else Finite(0.0))
    ensures r.Ok? && |msePreds| == |labels| == C * Q >= 1 ==> r.value.Finite? && 0.0 <= r.value.value <= 1.0
    ensures r.Ok? && |msePreds| == |labels| == C * Q >= 1 ==>
              (r.value == Finite(1.0) <==>
                (forall i :: 0 <= i < |labels| ==> msePreds[i] == labels[i] - 1) ||
                (|ctcPreds.value| >= |labels| && forall i :: 0 <= i < |labels| ==> ctcPreds.value[i] == labels[i]))
  {
    var ctc :- ctcPreds;
    var mse :- MseRewards(msePreds, labels);
    Ok(Accuracy(mse, CtcRewards(ctc, labels), C * Q))
  }
}
