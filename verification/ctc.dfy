/** The label and decoding helpers around the CTC probability engine
    (utils.py): exact-match scoring, the repeat mask that gives the "merge
    consecutive repeats" half of the CTC collapse rule, the column and
    letter rearrangement done before calling the engine, and the two
    decoders that rank candidate labellings by the engine's probability.
    The engine itself is an uninterpreted function parameter. */
module Ctc {
  import opened Py
  import opened Seqs
  import opened Arith

  // ---------------------------------------------------------------------
  // Exact-match scoring
  // ---------------------------------------------------------------------

  /** `np.count_nonzero(a == b)` for arrays of one length. */
  function CountEqual<T(==)>(a: seq<T>, b: seq<T>): (n: nat)
    requires |a| == |b|
    ensures n <= |a|
  {
    if |a| == 0 then 0
    else CountEqual(a[..|a| - 1], b[..|b| - 1]) + (if a[|a| - 1] == b[|b| - 1] then 1 else 0)
  }

  /** Every position agrees exactly when the count of agreeing positions
      reaches the length. */
  lemma {:induction false} CountEqualAll<T>(a: seq<T>, b: seq<T>)
    requires |a| == |b|
    ensures CountEqual(a, b) == |a| <==> forall i :: 0 <= i < |a| ==> a[i] == b[i]
  {
    if |a| > 0 {
      var n := |a| - 1;
      CountEqualAll(a[..n], b[..n]);
      assert forall i :: 0 <= i < n ==> a[..n][i] == a[i] && b[..n][i] == b[i];
    }
  }

  /** `ndarray_equal`: same length and the count of equal positions is the
      length, i.e. the arrays agree everywhere. */
  function NdarrayEqual<T(==)>(a: seq<T>, b: seq<T>): (r: bool)
    ensures r <==> |a| == |b| && forall i :: 0 <= i < |a| ==> a[i] == b[i]
    ensures r <==> a == b
  {
    if |a| != |b| then false
    else
      CountEqualAll(a, b);
      CountEqual(a, b) == |a|
  }

  /** What `compute_score` receives: an array (len() succeeds) or a numpy
      scalar (len() raises TypeError, caught by the except branch). */
  datatype Prediction = Scalar(v: int) | Array(items: seq<int>)

  /** `compute_score`: 1 for an exact match, else 0. An array matches only
      when it holds the truth as its single element. */
  function ComputeScore(p: Prediction, truth: int): (r: int)
    ensures r == 0 || r == 1
    ensures p.Array? ==> (r == 1 <==> NdarrayEqual(p.items, [truth]))
    ensures p.Scalar? ==> (r == 1 <==> p.v == truth)
  {
    match p
    case Array(items) => if |items| == 1 && items[0] == truth then 1 else 0
    case Scalar(v) => if v == truth then 1 else 0
  }

  // ---------------------------------------------------------------------
  // Repeat mask (ctc_length_mask)
  // ---------------------------------------------------------------------

  /** Number of adjacent positions of a row holding the same label. */
  function Repeats(row: seq<int>): (k: nat)
    ensures |row| > 0 ==> k < |row|
    ensures |row| == 0 ==> k == 0
  {
    if |row| <= 1 then 0
    else Repeats(row[..|row| - 1]) + (if row[|row| - 1] == row[|row| - 2] then 1 else 0)
  }

  /** The row with each maximal run of equal labels merged into one label:
      the first half of the CTC collapse rule. */
  function MergeRepeats(row: seq<int>): (r: seq<int>)
    ensures |r| <= |row|
    ensures |row| > 0 ==> |r| > 0 && r[0] == row[0] && r[|r| - 1] == row[|row| - 1]
    ensures forall i :: 0 < i < |r| ==> r[i] != r[i - 1]
  {
    if |row| <= 1 then row
    else
      var m := MergeRepeats(row[..|row| - 1]);
      if row[|row| - 1] == row[|row| - 2] then m else m + [row[|row| - 1]]
  }

  /** The mask a row should get: position i is kept unless it repeats
      position i-1. */
  function KeepMask(row: seq<int>): (m: seq<bool>)
    ensures |m| == |row|
    ensures forall i :: 0 <= i < |row| ==> m[i] == (i == 0 || row[i] != row[i - 1])
  {
    seq(|row|, i requires 0 <= i < |row| => i == 0 || row[i] != row[i - 1])
  }

  /** The kept positions, the length minus the repeats, and the number of
      maximal runs are one number. */
  lemma {:induction false} RunCount(row: seq<int>)
    ensures CountTrue(KeepMask(row)) == |row| - Repeats(row)
    ensures |MergeRepeats(row)| == |row| - Repeats(row)
  {
    if |row| > 1 {
      var n := |row| - 1;
      var init := row[..n];
      RunCount(init);
      assert KeepMask(row)[..n] == KeepMask(init);
    } else if |row| == 1 {
      assert KeepMask(row)[..0] == [];
    }
  }

  /** `ctc_length_mask` on an N x L label matrix: starting from length L
      and an all-true mask, each column i >= 1 decrements the length and
      clears the mask of every row that repeats column i-1. */
  method LengthMask(input: seq<seq<int>>, L: nat) returns (lengths: seq<int>, mask: seq<seq<bool>>)
    requires forall n :: 0 <= n < |input| ==> |input[n]| == L
    ensures |lengths| == |input| && |mask| == |input|
    ensures forall n :: 0 <= n < |input| ==> |mask[n]| == L
    ensures forall n :: 0 <= n < |input| && L >= 1 ==> mask[n][0]
    ensures forall n, i :: 0 <= n < |input| && 1 <= i < L ==>
              (!mask[n][i] <==> input[n][i] == input[n][i - 1])
    ensures forall n :: 0 <= n < |input| ==> lengths[n] == L - Repeats(input[n])
    ensures forall n :: 0 <= n < |input| ==>
              lengths[n] == CountTrue(mask[n]) == |MergeRepeats(input[n])|
    ensures forall n :: 0 <= n < |input| && L >= 1 ==> 1 <= lengths[n] <= L
  {
    lengths := seq(|input|, _ => L);
    mask := seq(|input|, _ => seq(L, _ => true));
    if L == 1 {
      forall n | 0 <= n < |input| {
        LengthOneRow(input[n], lengths[n], mask[n]);
      }
      return;
    }
    var i := 1;
    while i < L
      invariant 1 <= i && (i <= L || L == 0)
      invariant |lengths| == |input| && |mask| == |input|
      invariant forall n :: 0 <= n < |input| ==> L == 0 || RowState(input[n], lengths[n], mask[n], i)
      invariant forall n :: 0 <= n < |input| && L == 0 ==> lengths[n] == 0 && mask[n] == []
    {
      var newLengths := ClearLengths(input, lengths, i);
      var newMask := ClearColumn(input, mask, i);
      forall n | 0 <= n < |input|
        ensures RowState(input[n], newLengths[n], newMask[n], i + 1)
      {
        RowStep(input[n], lengths[n], mask[n], i);
      }
      lengths, mask := newLengths, newMask;
      i := i + 1;
    }
    forall n | 0 <= n < |input| {
      FinishedRow(input[n], lengths[n], mask[n]);
    }
  }

  /** A row with every column processed: its mask is the keep mask and its
      length counts the kept positions. */
  lemma FinishedRow(row: seq<int>, len: int, m: seq<bool>)
    requires |row| == 0 ==> len == 0 && m == []
    requires |row| >= 1 ==> RowState(row, len, m, |row|)
    ensures |m| == |row| && (|row| >= 1 ==> m[0])
    ensures forall i :: 1 <= i < |row| ==> (!m[i] <==> row[i] == row[i - 1])
    ensures len == |row| - Repeats(row)
    ensures len == CountTrue(m) == |MergeRepeats(row)|
    ensures |row| >= 1 ==> 1 <= len <= |row|
  {
    if |row| == 0 {
      assert m == KeepMask(row);
    } else {
      MaskIsKeepMask(row, len, m);
    }
    RunCount(row);
  }

  /** The early return for L == 1 agrees with the general rule: a single
      label has no repeat, and its mask is the single kept position. */
  lemma LengthOneRow(row: seq<int>, len: int, m: seq<bool>)
    requires |row| == 1 && len == 1 && m == [true]
    ensures RowState(row, len, m, 1)
    ensures m == KeepMask(row) && len == |row| - Repeats(row)
  {
    assert row[..1] == row;
  }

  /** A row of `ctc_length_mask` after columns 1..i-1 have been processed:
      the repeats among the first i labels are subtracted, and only those
      columns are cleared. */
  ghost predicate RowState(row: seq<int>, len: int, m: seq<bool>, i: nat) {
    && 1 <= i <= |row|
    && |m| == |row|
    && len == |row| - Repeats(row[..i])
    && forall k :: 0 <= k < |row| ==> m[k] == (k == 0 || k >= i || row[k] != row[k - 1])
  }

  lemma RowStep(row: seq<int>, len: int, m: seq<bool>, i: nat)
    requires RowState(row, len, m, i) && i < |row|
    ensures RowState(row, len - (if row[i] == row[i - 1] then 1 else 0),
                     if row[i] == row[i - 1] then m[i := false] else m, i + 1)
  {
    assert row[..i + 1][..i] == row[..i];
  }

  /** One column of `ctc_length_mask`: rows repeating column i-1 at column
      i lose one from their length. */
  function ClearLengths(input: seq<seq<int>>, lengths: seq<int>, i: nat): (r: seq<int>)
    requires |lengths| == |input| && i >= 1
    requires forall n :: 0 <= n < |input| ==> i < |input[n]|
    ensures |r| == |input|
    ensures forall n :: 0 <= n < |input| ==>
              r[n] == lengths[n] - (if input[n][i] == input[n][i - 1] then 1 else 0)
  {
    seq(|input|, n requires 0 <= n < |input| =>
      if input[n][i] == input[n][i - 1] then lengths[n] - 1 else lengths[n])
  }

  /** One column of `ctc_length_mask`: rows repeating column i-1 at column
      i get their mask cleared there, and nothing else changes. */
  function ClearColumn(input: seq<seq<int>>, mask: seq<seq<bool>>, i: nat): (r: seq<seq<bool>>)
    requires |mask| == |input| && i >= 1
    requires forall n :: 0 <= n < |input| ==> i < |input[n]| == |mask[n]|
    ensures |r| == |input|
    ensures forall n :: 0 <= n < |input| ==> |r[n]| == |mask[n]|
    ensures forall n, k :: 0 <= n < |input| && 0 <= k < |mask[n]| ==>
              r[n][k] == (if k == i then mask[n][k] && input[n][i] != input[n][i - 1] else mask[n][k])
  {
    seq(|input|, n requires 0 <= n < |input| =>
      if input[n][i] == input[n][i - 1] then mask[n][i := false] else mask[n])
  }

  /** A row with every column processed carries the mask it should get. */
  lemma MaskIsKeepMask(row: seq<int>, len: int, m: seq<bool>)
    requires RowState(row, len, m, |row|)
    ensures m == KeepMask(row)
    ensures len == |row| - Repeats(row)
  {
    var km := KeepMask(row);
    forall k | 0 <= k < |row|
      ensures m[k] == km[k]
    {
      assert m[k] == (k == 0 || row[k] != row[k - 1]);
    }
    assert |m| == |km|;
    assert row[..|row|] == row;
  }


  // ---------------------------------------------------------------------
  // Preparing a call to the labelling-probability engine (ctc_probability)
  // ---------------------------------------------------------------------

  const LetterCount: int := 52

  /** Letter i of `string.ascii_letters`: a..z then A..Z. */
  function LetterAt(i: int): char
    requires 0 <= i < LetterCount
  {
    if i < 26 then ('a' as int + i) as char else ('A' as int + (i - 26)) as char
  }

  /** `string.ascii_letters`. */
  function Letters(): (s: string)
    ensures |s| == LetterCount
  {
    seq(LetterCount, LetterAt)
  }

  /** The assertion `C <= 27` bounds the number of classes. */
  const MaxClasses: nat := 27

  /** Position of a letter in ascii_letters. */
  function LetterIndex(ch: char): int {
    if 'a' <= ch <= 'z' then ch as int - 'a' as int else ch as int - 'A' as int + 26
  }

  /** Letters name classes unambiguously: the letter for index i decodes
      back to i, so label t and letter t-1 determine each other. */
  lemma LetterRoundTrip(i: nat)
    requires i < |Letters()|
    ensures LetterIndex(Letters()[i]) == i
  {
  }

  predicate IsMatrix<T>(m: seq<seq<T>>, cols: nat) {
    forall t :: 0 <= t < |m| ==> |m[t]| == cols
  }

  /** Every label t has a letter `letters[t-1]` under Python indexing
      (a negative index counts from the end). */
  predicate LabelsIndexable(truth: seq<int>) {
    forall k :: 0 <= k < |truth| ==> -LetterCount <= truth[k] - 1 < LetterCount
  }

  /** When `ctc_probability` reaches the engine instead of raising. */
  predicate QueryOk(cols: nat, truth: seq<int>) {
    1 <= cols <= MaxClasses + 1 && LabelsIndexable(truth)
  }

  /** The arguments handed to the engine: the probability matrix with the
      blank column moved last, the label as letters, and the alphabet. */
  datatype LabellingQuery = LabellingQuery(mat: seq<seq<real>>, target: string, classes: string)

  type Engine = (seq<seq<real>>, string, string) -> real

  /** `torch.cat((prob[:, 1:], prob[:, 0:1]), 1)`. */
  function BlankLast(prob: seq<seq<real>>, cols: nat): (m: seq<seq<real>>)
    requires cols >= 1 && IsMatrix(prob, cols)
  {
    seq(|prob|, t requires 0 <= t < |prob| => prob[t][1..] + [prob[t][0]])
  }

  /** The inverse rearrangement: the last column back to the front. */
  function BlankFirst(mat: seq<seq<real>>, cols: nat): seq<seq<real>>
    requires cols >= 1 && IsMatrix(mat, cols)
  {
    seq(|mat|, t requires 0 <= t < |mat| => [mat[t][cols - 1]] + mat[t][..cols - 1])
  }

  /** Moving the blank column last loses nothing: moving it back restores
      the original matrix. */
  lemma BlankRoundTrip(prob: seq<seq<real>>, cols: nat)
    requires cols >= 1 && IsMatrix(prob, cols)
    ensures IsMatrix(BlankLast(prob, cols), cols)
    ensures BlankFirst(BlankLast(prob, cols), cols) == prob
  {
    var m := BlankLast(prob, cols);
    forall t | 0 <= t < |prob|
      ensures [m[t][cols - 1]] + m[t][..cols - 1] == prob[t]
    {
      assert m[t][..cols - 1] == prob[t][1..];
    }
  }

  /** `[letters[i] for i in truth - 1]`: IndexError for a label without a
      letter. */
  function LabelLetters(truth: seq<int>): (r: Result<string>)
    ensures r.Ok? <==> LabelsIndexable(truth)
    ensures r.Err? ==> r.error == IndexError
    ensures r.Ok? ==> |r.value| == |truth|
    ensures r.Ok? ==> forall k :: 0 <= k < |truth| ==> Index(Letters(), truth[k] - 1) == Ok(r.value[k])
  {
    if LabelsIndexable(truth) then
      Ok(seq(|truth|, k requires 0 <= k < |truth| => Index(Letters(), truth[k] - 1).value))
    else Err(IndexError)
  }

  /** `ctc_probability` up to the engine call: the assertion on the class
      count, the alphabet of the first C letters, the label letters, and
      the column rearrangement. Label t becomes letter t-1, which is the
      class letter for t in 1..C. */
  function CtcQuery(prob: seq<seq<real>>, cols: nat, truth: seq<int>): (r: Result<LabellingQuery>)
    requires IsMatrix(prob, cols)
    ensures r.Ok? <==> QueryOk(cols, truth)
    ensures cols > MaxClasses + 1 ==> r == Err(AssertionError)
    ensures r.Err? && cols <= MaxClasses + 1 ==> r.error == IndexError
    ensures r.Ok? ==> |r.value.classes| == cols - 1
    ensures r.Ok? ==> forall i :: 0 <= i < cols - 1 ==> r.value.classes[i] == Letters()[i]
    ensures r.Ok? ==> IsMatrix(r.value.mat, cols) && |r.value.mat| == |prob|
    ensures r.Ok? ==> forall t, j :: 0 <= t < |prob| && 0 <= j < cols - 1 ==>
              r.value.mat[t][j] == prob[t][j + 1]
    ensures r.Ok? ==> forall t :: 0 <= t < |prob| ==> r.value.mat[t][cols - 1] == prob[t][0]
    ensures r.Ok? ==> |r.value.target| == |truth|
    ensures r.Ok? ==> forall k :: 0 <= k < |truth| && 1 <= truth[k] <= cols - 1 ==>
              r.value.target[k] == r.value.classes[truth[k] - 1]
  {
    var c := cols as int - 1;
    if c > MaxClasses then Err(AssertionError)
    else
      var classes := Letters()[..Max(c, 0)];
      var gt :- LabelLetters(truth);
      if cols == 0 then Err(IndexError)
      else Ok(LabellingQuery(BlankLast(prob, cols), gt, classes))
  }

  /** Label 0 is not rejected: Python's negative indexing turns it into
      'Z', a letter outside every alphabet the assertion allows. */
  lemma LabelZeroLeavesAlphabet(prob: seq<seq<real>>, cols: nat)
    requires IsMatrix(prob, cols) && 1 <= cols <= MaxClasses + 1
    ensures CtcQuery(prob, cols, [0]).Ok?
    ensures CtcQuery(prob, cols, [0]).value.target == ['Z']
    ensures 'Z' !in CtcQuery(prob, cols, [0]).value.classes
  {
    var q := CtcQuery(prob, cols, [0]).value;
    assert Index(Letters(), -1) == Ok('Z');
    assert forall i :: 0 <= i < |q.classes| ==> q.classes[i] == Letters()[i] && Letters()[i] != 'Z';
  }

  /** The probability the engine assigns to a label that passes the checks. */
  function Score(prob: seq<seq<real>>, cols: nat, truth: seq<int>, engine: Engine): real
    requires IsMatrix(prob, cols) && QueryOk(cols, truth)
  {
    var q := CtcQuery(prob, cols, truth).value;
    engine(q.mat, q.target, q.classes)
  }

  /** `ctc_probability(prob, truth)`. */
  function CtcProbability(prob: seq<seq<real>>, cols: nat, truth: seq<int>, engine: Engine): (r: Result<real>)
    requires IsMatrix(prob, cols)
    ensures r.Ok? <==> QueryOk(cols, truth)
    ensures r.Ok? ==> r.value == Score(prob, cols, truth, engine)
  {
    var q :- CtcQuery(prob, cols, truth);
    Ok(engine(q.mat, q.target, q.classes))
  }

  // ---------------------------------------------------------------------
  // Segment decoder (ctc_alignment_predict)
  // ---------------------------------------------------------------------

  /** Where segment s starts: the sum of the earlier lengths. */
  function SegmentStart(lengths: seq<nat>, s: nat): nat
    requires s <= |lengths|
  {
    Sum(lengths[..s])
  }

  /** The target list cut into consecutive segments, `targets[start :
      start + length]` with a running start, as the decoder's inner loop
      does. Python slicing clamps a segment that runs past the end. */
  function Segments(targets: seq<int>, lengths: seq<nat>, start: nat): (r: seq<seq<int>>)
    ensures CutAt(r, targets, lengths, start)
    decreases |lengths|
  {
    if |lengths| == 0 then []
    else
      var rest := Segments(targets, lengths[1..], start + lengths[0]);
      CutAtCons(targets, lengths, start, rest);
      [Slice(targets, start, start + lengths[0])] + rest
  }

  /** r cuts targets into segments of the given lengths from start on:
      segment s is the clamped slice at start plus the earlier lengths. */
  ghost predicate CutAt(r: seq<seq<int>>, targets: seq<int>, lengths: seq<nat>, start: nat) {
    && |r| == |lengths|
    && forall s :: 0 <= s < |lengths| ==>
         r[s] == Slice(targets, start + SegmentStart(lengths, s),
                       start + SegmentStart(lengths, s) + lengths[s])
  }

  lemma CutAtCons(targets: seq<int>, lengths: seq<nat>, start: nat, rest: seq<seq<int>>)
    requires |lengths| > 0 && CutAt(rest, targets, lengths[1..], start + lengths[0])
    ensures CutAt([Slice(targets, start, start + lengths[0])] + rest, targets, lengths, start)
  {
    var r := [Slice(targets, start, start + lengths[0])] + rest;
    forall s | 0 <= s < |lengths|
      ensures r[s] == Slice(targets, start + SegmentStart(lengths, s),
                            start + SegmentStart(lengths, s) + lengths[s])
    {
      if s > 0 {
        StartShiftAt(lengths, s);
        var lo := start + lengths[0] + SegmentStart(lengths[1..], s - 1);
        assert lo == start + SegmentStart(lengths, s);
        assert lengths[s] == lengths[1..][s - 1];
        assert r[s] == rest[s - 1] == Slice(targets, lo, lo + lengths[s]);
      } else {
        assert lengths[..0] == [];
      }
    }
  }

  /** Dropping the first length shifts start s by it. */
  lemma StartShiftAt(lengths: seq<nat>, s: nat)
    requires 1 <= s <= |lengths|
    ensures SegmentStart(lengths, s) == lengths[0] + SegmentStart(lengths[1..], s - 1)
  {
    assert lengths[..s][1..] == lengths[1..][..s - 1];
  }

  lemma {:induction false} SumPrefix(xs: seq<nat>, s: nat)
    requires s < |xs|
    ensures Sum(xs[..s + 1]) == Sum(xs[..s]) + xs[s]
    ensures Sum(xs[..s + 1]) <= Sum(xs)
  {
    if s == 0 {
      assert xs[..1][1..] == [];
      assert xs[..0] == [];
    } else {
      SumPrefix(xs[1..], s - 1);
      assert xs[..s + 1][1..] == xs[1..][..s];
      assert xs[..s][1..] == xs[1..][..s - 1];
    }
  }

  /** When the lengths fit in the target list, segment s is exactly
      `targets[start_s : start_s + lengths[s]]` and has that length. */
  lemma SegmentsExact(targets: seq<int>, lengths: seq<nat>)
    requires Sum(lengths) <= |targets|
    ensures forall s :: 0 <= s < |lengths| ==>
              SegmentStart(lengths, s) + lengths[s] <= |targets| &&
              Segments(targets, lengths, 0)[s] ==
                targets[SegmentStart(lengths, s)..SegmentStart(lengths, s) + lengths[s]]
  {
    forall s | 0 <= s < |lengths|
      ensures SegmentStart(lengths, s) + lengths[s] <= |targets|
    {
      SumPrefix(lengths, s);
    }
  }

  /** Target lengths that are all 1 cut the targets into singletons. */
  lemma {:induction false} SingletonSegments(targets: seq<int>, lengths: seq<nat>)
    requires |lengths| <= |targets|
    requires forall s :: 0 <= s < |lengths| ==> lengths[s] == 1
    ensures forall s :: 0 <= s < |lengths| ==> Segments(targets, lengths, 0)[s] == [targets[s]]
  {
    forall s | 0 <= s < |lengths|
      ensures SegmentStart(lengths, s) == s
    {
      OnesPrefixSum(lengths, s);
    }
  }

  lemma {:induction false} OnesPrefixSum(lengths: seq<nat>, s: nat)
    requires s <= |lengths|
    requires forall i :: 0 <= i < |lengths| ==> lengths[i] == 1
    ensures Sum(lengths[..s]) == s
  {
    if s > 0 {
      OnesPrefixSum(lengths, s - 1);
      SumPrefix(lengths, s - 1);
    }
  }

  /** The engine's probability of every segment for one row. */
  function SegmentScores(prob: seq<seq<real>>, cols: nat, segs: seq<seq<int>>, engine: Engine): (r: seq<real>)
    requires IsMatrix(prob, cols)
    requires forall s :: 0 <= s < |segs| ==> QueryOk(cols, segs[s])
    ensures |r| == |segs|
    ensures forall s :: 0 <= s < |segs| ==> CtcProbability(prob, cols, segs[s], engine) == Ok(r[s])
  {
    seq(|segs|, s requires 0 <= s < |segs| => Score(prob, cols, segs[s], engine))
  }

  predicate SegmentsOk(cols: nat, segs: seq<seq<int>>) {
    forall s :: 0 <= s < |segs| ==> QueryOk(cols, segs[s])
  }

  /** The winning segment of every row: torch.max over the segment
      probabilities, which picks the first maximum. RuntimeError when there
      is no segment to take the maximum of. */
  function Winners(probs: seq<seq<seq<real>>>, cols: nat, targets: seq<int>, lengths: seq<nat>,
                   engine: Engine): (r: Result<seq<nat>>)
    requires forall n :: 0 <= n < |probs| ==> IsMatrix(probs[n], cols)
    ensures r.Ok? <==> |probs| == 0 || (|lengths| > 0 && SegmentsOk(cols, Segments(targets, lengths, 0)))
    ensures r.Err? ==> r.error == (if |lengths| == 0 then RuntimeError
                                   else if cols > MaxClasses + 1 then AssertionError else IndexError)
    ensures r.Ok? ==> |r.value| == |probs|
    ensures r.Ok? ==> forall n :: 0 <= n < |probs| ==> r.value[n] < |lengths|
    ensures r.Ok? ==> forall n :: 0 <= n < |probs| ==>
              IsFirstMax(SegmentScores(probs[n], cols, Segments(targets, lengths, 0), engine), r.value[n])
  {
    var segs := Segments(targets, lengths, 0);
    if |probs| == 0 then Ok([])
    else if !SegmentsOk(cols, segs) then
      Err(if cols > MaxClasses + 1 then AssertionError else IndexError)
    else if |lengths| == 0 then Err(RuntimeError)
    else
      Ok(seq(|probs|, n requires 0 <= n < |probs| => ArgMax(SegmentScores(probs[n], cols, segs, engine))))
  }

  /** `ctc_alignment_predict`: the winners of all rows mapped to classes. */
  function AlignmentPredict(probs: seq<seq<seq<real>>>, cols: nat, targets: seq<int>, lengths: seq<nat>,
                            sampleNum: int, engine: Engine): (r: Result<seq<int>>)
    requires forall n :: 0 <= n < |probs| ==> IsMatrix(probs[n], cols)
    ensures r.Ok? <==> Winners(probs, cols, targets, lengths, engine).Ok? && (sampleNum != 0 || |probs| == 0)
    ensures r.Err? && Winners(probs, cols, targets, lengths, engine).Ok? ==> r.error == RuntimeError
    ensures r.Ok? ==> r == WinnerClasses(Winners(probs, cols, targets, lengths, engine).value, |lengths|, sampleNum)
  {
    var w :- Winners(probs, cols, targets, lengths, engine);
    WinnerClasses(w, |lengths|, sampleNum)
  }

  /** The final line of `ctc_alignment_predict`: winning index k among S
      segments becomes class `k // sample_num + 1`, with torch's integer
      `//` on the tensor entry. Candidates were enumerated sample_num per
      class, so for a positive sample_num the class is the 1-based block of
      sample_num segments that holds the winner, and it lies in
      1..ceil(S/sample_num). Integer division by zero raises RuntimeError
      in torch, but only once there is a row. */
  function WinnerClasses(w: seq<nat>, S: nat, sampleNum: int): (r: Result<seq<int>>)
    requires forall n :: 0 <= n < |w| ==> w[n] < S
    ensures r.Ok? <==> sampleNum != 0 || |w| == 0
    ensures r.Err? ==> r.error == RuntimeError
    ensures r.Ok? ==> |r.value| == |w|
    ensures r.Ok? && sampleNum >= 1 ==> forall n :: 0 <= n < |w| ==>
              (r.value[n] - 1) * sampleNum <= w[n] < r.value[n] * sampleNum
    ensures r.Ok? && sampleNum >= 1 ==> forall n :: 0 <= n < |w| ==>
              1 <= r.value[n] <= (S + sampleNum - 1) / sampleNum
    ensures r.Ok? && sampleNum < 0 ==> forall n :: 0 <= n < |w| ==> r.value[n] <= 1
  {
    if |w| == 0 then Ok([])
    else if sampleNum == 0 then Err(RuntimeError)
    else
      var r := seq(|w|, n requires 0 <= n < |w| => TruncDiv(w[n], sampleNum) + 1);
      if sampleNum >= 1 then
        ClassesOfWinners(w, r, S, sampleNum);
        Ok(r)
      else
        Ok(r)
  }

  lemma ClassesOfWinners(w: seq<nat>, r: seq<int>, S: nat, m: nat)
    requires m >= 1 && |r| == |w|
    requires forall n :: 0 <= n < |w| ==> w[n] < S && r[n] == TruncDiv(w[n], m) + 1
    ensures forall n :: 0 <= n < |w| ==> (r[n] - 1) * m <= w[n] < r[n] * m
    ensures forall n :: 0 <= n < |w| ==> 1 <= r[n] <= (S + m - 1) / m
  {
    forall n | 0 <= n < |w|
      ensures (r[n] - 1) * m <= w[n] < r[n] * m
      ensures 1 <= r[n] <= (S + m - 1) / m
    {
      BlockOf(w[n], m);
      BlockBound(w[n], S, m);
    }
  }

  /** Because `//` truncates, negating sample_num mirrors every class
      around 1: class r for sample_num becomes 2 - r for -sample_num. */
  lemma MirroredClasses(w: seq<nat>, S: nat, m: int)
    requires m >= 1 && forall n :: 0 <= n < |w| ==> w[n] < S
    ensures WinnerClasses(w, S, -m).Ok? && WinnerClasses(w, S, m).Ok?
    ensures forall n :: 0 <= n < |w| ==>
              WinnerClasses(w, S, -m).value[n] == 2 - WinnerClasses(w, S, m).value[n]
  {
    forall n | 0 <= n < |w|
      ensures WinnerClasses(w, S, -m).value[n] == 2 - WinnerClasses(w, S, m).value[n]
    {
      TruncDivNegate(w[n], m);
    }
  }

  /** k lies in block k / m of size m. */
  lemma BlockOf(k: nat, m: nat)
    requires m >= 1
    ensures (k / m) * m <= k < (k / m + 1) * m
  {
  }

  /** An index below S lies in one of the first ceil(S/m) blocks. */
  lemma BlockBound(k: nat, S: nat, m: nat)
    requires m >= 1 && k < S
    ensures k / m + 1 <= (S + m - 1) / m
  {
    BlockOf(k, m);
    BlockOf(S + m - 1, m);
    var q := k / m;
    var Q := (S + m - 1) / m;
    assert q * m <= k <= S - 1;
    assert (q + 1) * m <= S + m - 1 < (Q + 1) * m;
    if Q < q + 1 {
      MulLe(Q + 1, q + 1, m);
    }
  }

  // ---------------------------------------------------------------------
  // Single-label decoder (ctc_predict_single)
  // ---------------------------------------------------------------------

  /** The engine's probability of each single-label candidate [c+1]. */
  function SingleScores(prob: seq<seq<real>>, cols: nat, engine: Engine): (r: seq<real>)
    requires IsMatrix(prob, cols) && 2 <= cols <= MaxClasses + 1
    ensures |r| == cols - 1
    ensures forall c :: 0 <= c < cols - 1 ==> CtcProbability(prob, cols, [c + 1], engine) == Ok(r[c])
  {
    seq(cols - 1, c requires 0 <= c < cols - 1 => Score(prob, cols, [c + 1], engine))
  }

  /** `ctc_predict_single`: per row, 1 plus the first index of the best
      single-label candidate, a class in 1..C. numpy raises ValueError
      (AxisError) for an empty batch or when there is no class. */
  function PredictSingle(probs: seq<seq<seq<real>>>, cols: nat, engine: Engine): (r: Result<seq<int>>)
    requires forall n :: 0 <= n < |probs| ==> IsMatrix(probs[n], cols)
    ensures r.Ok? <==> |probs| >= 1 && 2 <= cols <= MaxClasses + 1
    ensures r.Err? ==> r.error == (if |probs| >= 1 && cols > MaxClasses + 1 then AssertionError else ValueError)
    ensures r.Ok? ==> |r.value| == |probs|
    ensures r.Ok? ==> forall n :: 0 <= n < |probs| ==>
              1 <= r.value[n] <= cols - 1 && IsFirstMax(SingleScores(probs[n], cols, engine), r.value[n] - 1)
  {
    if |probs| == 0 then Err(ValueError)
    else if cols <= 1 then Err(ValueError)
    else if cols > MaxClasses + 1 then Err(AssertionError)
    else Ok(seq(|probs|, n requires 0 <= n < |probs| => ArgMax(SingleScores(probs[n], cols, engine)) + 1))
  }
}
