/** The frame-index arithmetic of `HAADataset.__getitem__` and
    `KineticsDataset.__getitem__` (dataset.py): the stride between clips,
    fitting the frame list to the expected length, the clip-sized blocks of
    selected indices, the Kinetics subsampling and clamping, and the
    grouping of the picked frames into clips. A frame is an opaque item:
    reading, resizing, flipping and normalising images is not modelled. */
module Frames {
  import opened Arith
  import opened Py
  import opened Seqs
  import Config

  // ---------------------------------------------------------------------
  // Stride and expected length
  // ---------------------------------------------------------------------

  /** `round((length - frame_num) / (count - 1))`, count being
      clip_num * window_num; defined when count != 1. */
  function StrideOf(length: int, frameNum: int, count: int): int
    requires count != 1
  {
    RoundHalfEven(length - frameNum, count - 1)
  }

  /** The stride, or ZeroDivisionError when there is a single clip. */
  function Stride(length: int, frameNum: int, count: int): (r: Result<int>)
    ensures r.Ok? <==> count != 1
    ensures r.Err? ==> r.error == ZeroDivisionError
    ensures r.Ok? ==> IsRoundHalfEven(length - frameNum, count - 1, r.value)
  {
    if count == 1 then Err(ZeroDivisionError) else Ok(StrideOf(length, frameNum, count))
  }

  /** With at least two clips the stride is non-negative exactly when the
      exact quotient is at least -1/2 (a tie at -1/2 rounds to the even 0);
      in particular a video with at least frame_num frames never gets a
      negative stride. */
  lemma StrideSign(length: int, frameNum: int, count: int)
    requires count >= 2
    ensures StrideOf(length, frameNum, count) >= 0 <==> 2 * (length - frameNum) >= -(count - 1)
    ensures length >= frameNum ==> StrideOf(length, frameNum, count) >= 0
  {
    RoundSign(length - frameNum, count - 1, StrideOf(length, frameNum, count));
  }

  /** `expected_length = (count - 1) * stride + frame_num`. */
  function ExpectedLength(stride: int, frameNum: int, count: int): int {
    (count - 1) * stride + frameNum
  }

  // ---------------------------------------------------------------------
  // Fitting the frame list (HAA)
  // ---------------------------------------------------------------------

  /** `all_frames[:expected]` when it is long enough, else the list padded
      with copies of its last frame; IndexError when an empty list needs
      padding. Every kept position holds the frame at that position, or the
      last frame past the end of the original list. */
  function FitToLength<T>(frames: seq<T>, expected: int): (r: Result<seq<T>>)
    ensures r.Ok? <==> expected <= |frames| || |frames| > 0
    ensures r.Err? ==> r.error == IndexError
    ensures r.Ok? && expected >= 0 ==> |r.value| == expected
    ensures r.Ok? && 0 <= expected <= |frames| ==> r.value == frames[..expected]
    ensures r.Ok? ==> |r.value| <= |frames| || |r.value| == expected
    ensures r.Ok? ==> forall i :: 0 <= i < |r.value| ==> r.value[i] == frames[Min(i, |frames| - 1)]
  {
    if expected <= |frames| then Ok(Prefix(frames, expected))
    else
      var last :- Index(frames, -1);
      Ok(frames + seq(expected - |frames|, _ => last))
  }

  // ---------------------------------------------------------------------
  // Selected indices
  // ---------------------------------------------------------------------

  /** Clip i of the selection: `range(i * stride, i * stride + frame_num)`. */
  function ClipIndices(stride: int, frameNum: int, i: int): (r: seq<int>)
    ensures |r| == Max(frameNum, 0)
    ensures forall j :: 0 <= j < |r| ==> r[j] == i * stride + j
  {
    Range(i * stride, Max(frameNum, 0))
  }

  /** `selected_frames`: the indices of the count clips one after another.
      Block i, of frame_num entries, is clip i. */
  function SelectedFrames(stride: int, frameNum: int, count: int): (r: seq<int>)
    ensures |r| == Max(count, 0) * Max(frameNum, 0)
    ensures forall i :: 0 <= i < count ==> IsBlock(r, Max(frameNum, 0), i, ClipIndices(stride, frameNum, i))
  {
    var f: nat := Max(frameNum, 0);
    var blocks := seq(Max(count, 0), i => ClipIndices(stride, frameNum, i));
    assert forall i :: 0 <= i < |blocks| ==> |blocks[i]| == f;
    FlattenBlocks(blocks, f);
    assert forall i :: 0 <= i < count ==> blocks[i] == ClipIndices(stride, frameNum, i);
    Flatten(blocks)
  }

  /** With a non-negative stride every selected index lies in
      [0, expected_length): after fitting the list to that length, every
      index is in bounds. */
  lemma SelectedInBounds(stride: int, frameNum: int, count: int)
    requires stride >= 0 && frameNum >= 1 && count >= 1
    ensures forall k :: 0 <= k < |SelectedFrames(stride, frameNum, count)| ==>
              0 <= SelectedFrames(stride, frameNum, count)[k] < ExpectedLength(stride, frameNum, count)
  {
    forall k | 0 <= k < |SelectedFrames(stride, frameNum, count)|
      ensures 0 <= SelectedFrames(stride, frameNum, count)[k] < ExpectedLength(stride, frameNum, count)
    {
      SelectedInBoundsAt(stride, frameNum, count, k);
    }
  }

  lemma SelectedInBoundsAt(stride: int, frameNum: nat, count: nat, k: nat)
    requires stride >= 0 && frameNum >= 1 && count >= 1
    requires k < |SelectedFrames(stride, frameNum, count)|
    ensures 0 <= SelectedFrames(stride, frameNum, count)[k] < ExpectedLength(stride, frameNum, count)
  {
    var i, j := BlockPosition(k, frameNum, count);
    SelectedEntry(stride, frameNum, count, i, j);
    var v := SelectedFrames(stride, frameNum, count)[k];
    assert v == i * stride + j;
    MulLe(i, count - 1, stride);
    assert i * stride <= (count - 1) * stride;
  }

  // ---------------------------------------------------------------------
  // Gathering and grouping
  // ---------------------------------------------------------------------

  /** `[items[idx] for idx in idxs]` with Python indexing: IndexError as
      soon as one index is out of range. */
  function Gather<T>(items: seq<T>, idxs: seq<int>): (r: Result<seq<T>>)
    ensures r.Ok? <==> forall k :: 0 <= k < |idxs| ==> -|items| <= idxs[k] < |items|
    ensures r.Err? ==> r.error == IndexError
    ensures r.Ok? ==> |r.value| == |idxs|
    ensures r.Ok? ==> forall k :: 0 <= k < |idxs| ==> Index(items, idxs[k]) == Ok(r.value[k])
  {
    if forall k :: 0 <= k < |idxs| ==> -|items| <= idxs[k] < |items| then
      Ok(seq(|idxs|, k requires 0 <= k < |idxs| => Index(items, idxs[k]).value))
    else Err(IndexError)
  }

  /** groups cut xs, in order, into groups of exactly size items but for a
      last one of 1 to size items. */
  ghost predicate Grouped<T>(xs: seq<T>, size: nat, groups: seq<seq<T>>) {
    && Flatten(groups) == xs
    && (|xs| == 0 <==> |groups| == 0)
    && (forall g :: 0 <= g < |groups| ==> 1 <= |groups[g]| <= size)
    && (forall g :: 0 <= g < |groups| - 1 ==> |groups[g]| == size)
    && (|groups| > 0 ==> |xs| == (|groups| - 1) * size + |groups[|groups| - 1]|)
  }

  /** One step of the grouping loop: x opens a new group, or is appended
      to the last one. */
  function Place<T>(groups: seq<seq<T>>, x: T, opens: bool): seq<seq<T>>
    requires opens || |groups| > 0
  {
    if opens then groups + [[x]] else groups[..|groups| - 1] + [groups[|groups| - 1] + [x]]
  }

  /** The grouping loop: item i opens a new group when `i % size == 0` and
      is appended to the last group otherwise. */
  function Group<T>(xs: seq<T>, size: nat): (r: seq<seq<T>>)
    requires size >= 1
    ensures Grouped(xs, size, r)
  {
    if |xs| == 0 then []
    else
      var n := |xs| - 1;
      var acc := Group(xs[..n], size);
      PlaceKeepsGrouped(xs, size, acc);
      Place(acc, xs[n], n % size == 0)
  }

  lemma PlaceKeepsGrouped<T>(xs: seq<T>, size: nat, acc: seq<seq<T>>)
    requires size >= 1 && |xs| > 0 && Grouped(xs[..|xs| - 1], size, acc)
    ensures |xs| - 1 == 0 ==> |acc| == 0
    ensures (|xs| - 1) % size == 0 || |acc| > 0
    ensures Grouped(xs, size, Place(acc, xs[|xs| - 1], (|xs| - 1) % size == 0))
  {
    var n := |xs| - 1;
    GroupOpens(n, size, |acc|, if |acc| == 0 then 0 else |acc[|acc| - 1]|);
    if n % size == 0 {
      OpenKeepsGrouped(xs, size, acc);
    } else {
      AppendKeepsGrouped(xs, size, acc);
    }
  }

  /** After full groups, the next item opens a group of its own. */
  lemma OpenKeepsGrouped<T>(xs: seq<T>, size: nat, acc: seq<seq<T>>)
    requires size >= 1 && |xs| > 0 && Grouped(xs[..|xs| - 1], size, acc)
    requires |acc| == 0 || |acc[|acc| - 1]| == size
    ensures Grouped(xs, size, acc + [[xs[|xs| - 1]]])
  {
    var n := |xs| - 1;
    assert xs == xs[..n] + [xs[n]];
    FlattenAppend(acc, [xs[n]]);
    if |acc| > 0 {
      assert n == (|acc| - 1) * size + size;
      assert (|acc| - 1) * size + size == |acc| * size;
    }
  }

  /** Into a group that is not full, the next item is appended. */
  lemma AppendKeepsGrouped<T>(xs: seq<T>, size: nat, acc: seq<seq<T>>)
    requires size >= 1 && |xs| > 0 && Grouped(xs[..|xs| - 1], size, acc)
    requires |acc| > 0 && |acc[|acc| - 1]| < size
    ensures Grouped(xs, size, acc[..|acc| - 1] + [acc[|acc| - 1] + [xs[|xs| - 1]]])
  {
    var n := |xs| - 1;
    var init := acc[..|acc| - 1];
    var last := acc[|acc| - 1];
    assert xs == xs[..n] + [xs[n]];
    assert acc == init + [last];
    FlattenAppend(init, last);
    FlattenAppend(init, last + [xs[n]]);
  }

  /** Item n opens a new group exactly when the groups so far are full. */
  lemma GroupOpens(n: nat, size: nat, groups: nat, last: nat)
    requires size >= 1
    requires groups == 0 ==> n == 0
    requires groups > 0 ==> 1 <= last <= size && n == (groups - 1) * size + last
    ensures n % size == 0 <==> groups == 0 || last == size
    ensures groups > 0 && last == size ==> n + 1 == groups * size + 1
  {
    if groups > 0 {
      if last == size {
        DivUnique(n, size, groups);
      } else {
        DivUnique(n, size, groups - 1);
      }
    }
  }

  /** Groups of exactly size items when the length is a multiple of it. */
  lemma GroupExact<T>(xs: seq<T>, size: nat, count: nat)
    requires size >= 1 && |xs| == count * size
    ensures |Group(xs, size)| == count
    ensures forall g :: 0 <= g < count ==> IsBlock(xs, size, g, Group(xs, size)[g])
  {
    var r := Group(xs, size);
    if count > 0 {
      FullGroups(|r| - 1, |r[|r| - 1]|, size, count);
      assert forall g :: 0 <= g < |r| ==> |r[g]| == size;
      FlattenBlocks(r, size);
    }
  }

  /** m full groups and a last one of t items hold count * size items only
      when m == count - 1 and the last group is full too. */
  lemma FullGroups(m: nat, t: nat, size: nat, count: nat)
    requires size >= 1 && 1 <= t <= size && count * size == m * size + t
    ensures m == count - 1 && t == size
  {
    assert (count - 1) * size == count * size - size;
    assert (m + 1) * size == m * size + size;
    MulCancelLt(m, count, size);
    MulCancelLt(count - 1, m + 1, size);
  }

  /** The clips of frames the loop builds: empty when nothing is selected. */
  function Clips<T>(picked: seq<T>, frameNum: int): (r: seq<seq<T>>)
    ensures frameNum >= 1 ==> r == Group(picked, frameNum)
    ensures |picked| == 0 ==> r == []
  {
    if |picked| == 0 || frameNum < 1 then [] else Group(picked, frameNum)
  }

  /** count * frame_num picked frames make count full clips. */
  lemma ExactClipShape<T>(picked: seq<T>, frameNum: nat, count: nat)
    requires frameNum >= 1 && |picked| == count * frameNum
    ensures ClipShape(Clips(picked, frameNum), frameNum, count)
  {
    var clips := Clips(picked, frameNum);
    GroupExact(picked, frameNum, count);
    forall g | 0 <= g < count
      ensures |clips[g]| == frameNum
    {
      assert IsBlock(picked, frameNum, g, clips[g]);
    }
  }

  /** count clips of frame_num frames each. */
  predicate ClipShape<T>(clips: seq<seq<T>>, frameNum: int, count: int) {
    |clips| == count && forall g :: 0 <= g < |clips| ==> |clips[g]| == frameNum
  }

  /** Clip g, position j, is frame `g * stride + j` of a non-empty video,
      or its last frame when the video is shorter. */
  ghost predicate ClipsRead<T>(clips: seq<seq<T>>, frames: seq<T>, stride: int, frameNum: int, count: int)
    requires ClipShape(clips, frameNum, count)
  {
    && |frames| >= 1
    && forall g, j :: 0 <= g < count && 0 <= j < frameNum ==> ReadAt(clips, frames, stride, g, j)
  }

  /** Entry j of clip g is frame `g * stride + j`, clamped to the last frame. */
  ghost predicate ReadAt<T>(clips: seq<seq<T>>, frames: seq<T>, stride: int, g: nat, j: nat) {
    && g < |clips| && j < |clips[g]| && |frames| >= 1
    && 0 <= g * stride + j && clips[g][j] == frames[Min(g * stride + j, |frames| - 1)]
  }

  /** picked is the selection read from frames, indices past the end
      reading the last frame. */
  ghost predicate ReadsClamped<T>(picked: seq<T>, frames: seq<T>, sel: seq<int>) {
    && |frames| >= 1
    && |picked| == |sel|
    && forall k :: 0 <= k < |sel| ==> 0 <= sel[k] && picked[k] == frames[Min(sel[k], |frames| - 1)]
  }

  /** Grouping a selection read from a video gives the clips of that video. */
  lemma ClipsOfSelection<T>(picked: seq<T>, frames: seq<T>, stride: int, frameNum: nat, count: nat)
    requires frameNum >= 1 && ReadsClamped(picked, frames, SelectedFrames(stride, frameNum, count))
    ensures ClipShape(Clips(picked, frameNum), frameNum, count)
    ensures ClipsRead(Clips(picked, frameNum), frames, stride, frameNum, count)
  {
    ClipsWidths(picked, frames, stride, frameNum, count);
    ClipsReadAll(picked, frames, stride, frameNum, count);
  }

  lemma ClipsWidths<T>(picked: seq<T>, frames: seq<T>, stride: int, frameNum: nat, count: nat)
    requires frameNum >= 1 && ReadsClamped(picked, frames, SelectedFrames(stride, frameNum, count))
    ensures ClipShape(Clips(picked, frameNum), frameNum, count)
  {
    var clips := Clips(picked, frameNum);
    if count == 0 {
      ClipsOfNothing(picked, frames, stride, frameNum);
    } else {
      ClipReadAt(picked, frames, stride, frameNum, count, 0, 0);
    }
    forall g | 0 <= g < count
      ensures |clips[g]| == frameNum
    {
      ClipReadAt(picked, frames, stride, frameNum, count, g, 0);
    }
  }

  lemma ClipsReadAll<T>(picked: seq<T>, frames: seq<T>, stride: int, frameNum: nat, count: nat)
    requires frameNum >= 1 && ReadsClamped(picked, frames, SelectedFrames(stride, frameNum, count))
    requires ClipShape(Clips(picked, frameNum), frameNum, count)
    ensures ClipsRead(Clips(picked, frameNum), frames, stride, frameNum, count)
  {
    var clips := Clips(picked, frameNum);
    forall g, j | 0 <= g < count && 0 <= j < frameNum
      ensures ReadAt(clips, frames, stride, g, j)
    {
      ClipReadAt(picked, frames, stride, frameNum, count, g, j);
    }
  }

  lemma ClipsOfNothing<T>(picked: seq<T>, frames: seq<T>, stride: int, frameNum: nat)
    requires frameNum >= 1 && ReadsClamped(picked, frames, SelectedFrames(stride, frameNum, 0))
    ensures Clips(picked, frameNum) == []
  {
  }

  /** Entry j of clip g of a selection read from a video. */
  lemma ClipReadAt<T>(picked: seq<T>, frames: seq<T>, stride: int, frameNum: nat, count: nat, g: nat, j: nat)
    requires frameNum >= 1 && ReadsClamped(picked, frames, SelectedFrames(stride, frameNum, count))
    requires g < count && j < frameNum
    ensures |Clips(picked, frameNum)| == count && |Clips(picked, frameNum)[g]| == frameNum
    ensures 0 <= g * stride + j
    ensures Clips(picked, frameNum)[g][j] == frames[Min(g * stride + j, |frames| - 1)]
  {
    var sel := SelectedFrames(stride, frameNum, count);
    var k := g * frameNum + j;
    ClipEntry(picked, frameNum, count, g, j);
    SelectedEntry(stride, frameNum, count, g, j);
    assert sel[k] == g * stride + j;
    assert picked[k] == frames[Min(sel[k], |frames| - 1)];
  }

  /** Two sets of clips of the same shape that read the same video with the
      same stride are equal. */
  lemma ClipsReadUnique<T>(a: seq<seq<T>>, b: seq<seq<T>>, frames: seq<T>, stride: int, frameNum: int, count: int)
    requires ClipShape(a, frameNum, count) && ClipsRead(a, frames, stride, frameNum, count)
    requires ClipShape(b, frameNum, count) && ClipsRead(b, frames, stride, frameNum, count)
    ensures a == b
  {
    forall g | 0 <= g < count
      ensures a[g] == b[g]
    {
      forall j | 0 <= j < frameNum
        ensures a[g][j] == b[g][j]
      {
        assert ReadAt(a, frames, stride, g, j) && ReadAt(b, frames, stride, g, j);
      }
    }
  }

  // ---------------------------------------------------------------------
  // HAA
  // ---------------------------------------------------------------------

  /** The frames `HAADataset.__getitem__` returns for a sorted frame list,
      as count clips of frame_num frames. With at least two clips and a
      non-empty video whose stride is non-negative, clip g, position j, is
      frame `g * stride + j`, or the last frame when the video is shorter.
      When nothing is selected (no clip, or clips of no frame) the empty
      frame list becomes a one-dimensional array, which `np.transpose` to
      five axes refuses with a ValueError. */
  function HaaClips<T>(all: seq<T>, frameNum: int, count: int): (r: Result<seq<seq<T>>>)
    ensures count == 1 ==> r == Err(ZeroDivisionError)
    ensures count >= 2 && frameNum >= 1 && |all| == 0 ==> r == Err(IndexError)
    ensures count != 1 && (count < 1 || frameNum < 1) ==>
              r == Err(if |all| == 0 && ExpectedLength(StrideOf(|all|, frameNum, count), frameNum, count) > 0
                       then IndexError else ValueError)
    ensures r.Ok? ==> count >= 2 && frameNum >= 1 && ClipShape(r.value, frameNum, count)
    ensures count >= 2 && frameNum >= 1 && |all| >= 1 && StrideOf(|all|, frameNum, count) >= 0 ==>
              r.Ok? && ClipShape(r.value, frameNum, count) &&
              ClipsRead(r.value, all, StrideOf(|all|, frameNum, count), frameNum, count)
  {
    var stride :- Stride(|all|, frameNum, count);
    var fitted :- FitToLength(all, ExpectedLength(stride, frameNum, count));
    var sel := SelectedFrames(stride, frameNum, count);
    HaaGather(all, frameNum, count, stride, fitted, sel);
    var picked :- Gather(fitted, sel);
    HaaFacts(all, frameNum, count, stride, fitted, sel, picked);
    ZeroProduct(Max(count, 0), Max(frameNum, 0));
    if |picked| == 0 then Err(ValueError) else Ok(Clips(picked, frameNum))
  }

  lemma HaaFacts<T>(all: seq<T>, frameNum: int, count: int, stride: int, fitted: seq<T>, sel: seq<int>, picked: seq<T>)
    requires FitToLength(all, ExpectedLength(stride, frameNum, count)) == Ok(fitted)
    requires sel == SelectedFrames(stride, frameNum, count)
    requires Gather(fitted, sel) == Ok(picked)
    ensures count >= 1 && frameNum >= 1 ==> ClipShape(Clips(picked, frameNum), frameNum, count)
    ensures count >= 2 && frameNum >= 1 && |all| >= 1 && stride >= 0 ==>
              ClipShape(Clips(picked, frameNum), frameNum, count) &&
              ClipsRead(Clips(picked, frameNum), all, stride, frameNum, count)
  {
    if count >= 1 && frameNum >= 1 {
      ExactClipShape(picked, frameNum, count);
      if count >= 2 && |all| >= 1 && stride >= 0 {
        SelectedInBounds(stride, frameNum, count);
        FittedReads(all, ExpectedLength(stride, frameNum, count), fitted, sel, picked);
        ClipsOfSelection(picked, all, stride, frameNum, count);
      }
    }
  }

  /** With a non-negative stride, gathering the selection from the fitted
      list succeeds. */
  lemma HaaGather<T>(all: seq<T>, frameNum: int, count: int, stride: int, fitted: seq<T>, sel: seq<int>)
    requires FitToLength(all, ExpectedLength(stride, frameNum, count)) == Ok(fitted)
    requires sel == SelectedFrames(stride, frameNum, count)
    ensures count >= 2 && frameNum >= 1 && |all| >= 1 && stride >= 0 ==> Gather(fitted, sel).Ok?
  {
    if count >= 2 && frameNum >= 1 && |all| >= 1 && stride >= 0 {
      MulLe(0, count - 1, stride);
      assert ExpectedLength(stride, frameNum, count) >= 1;
      assert |fitted| == ExpectedLength(stride, frameNum, count);
      forall k | 0 <= k < |sel|
        ensures 0 <= sel[k] < |fitted|
      {
        SelectedInBoundsAt(stride, frameNum, count, k);
      }
    }
  }

  /** Gathering in-range indices from the fitted list reads the video. */
  lemma FittedReads<T>(all: seq<T>, expected: int, fitted: seq<T>, sel: seq<int>, picked: seq<T>)
    requires FitToLength(all, expected) == Ok(fitted) && |all| >= 1
    requires forall k :: 0 <= k < |sel| ==> 0 <= sel[k] < expected
    requires Gather(fitted, sel) == Ok(picked)
    ensures ReadsClamped(picked, all, sel)
  {
    forall k | 0 <= k < |sel|
      ensures picked[k] == all[Min(sel[k], |all| - 1)]
    {
      FittedRead(all, expected, fitted, sel[k]);
      assert Index(fitted, sel[k]) == Ok(picked[k]);
    }
  }

  /** Entry j of clip g is the picked item at g * frame_num + j. */
  lemma ClipEntry<T>(picked: seq<T>, frameNum: nat, count: nat, g: nat, j: nat)
    requires frameNum >= 1 && |picked| == count * frameNum && g < count && j < frameNum
    ensures 0 <= g * frameNum + j < |picked|
    ensures |Clips(picked, frameNum)| == count && |Clips(picked, frameNum)[g]| == frameNum
    ensures Clips(picked, frameNum)[g][j] == picked[g * frameNum + j]
  {
    var groups := Group(picked, frameNum);
    GroupExactAt(picked, frameNum, count, g);
    BlockEntry(picked, frameNum, g, groups[g], j);
  }

  /** Group g of an exact grouping is block g. */
  lemma GroupExactAt<T>(xs: seq<T>, size: nat, count: nat, g: nat)
    requires size >= 1 && |xs| == count * size && g < count
    ensures |Group(xs, size)| == count && IsBlock(xs, size, g, Group(xs, size)[g])
    ensures |Group(xs, size)[g]| == size
  {
    GroupExact(xs, size, count);
    var r := Group(xs, size);
    assert IsBlock(xs, size, g, r[g]);
    BlockLength(xs, size, g, r[g]);
  }

  /** Entry j of clip g of the selection is index g * stride + j. */
  lemma SelectedEntry(stride: int, frameNum: nat, count: nat, g: nat, j: nat)
    requires frameNum >= 1 && g < count && j < frameNum
    ensures 0 <= g * frameNum + j < |SelectedFrames(stride, frameNum, count)|
    ensures SelectedFrames(stride, frameNum, count)[g * frameNum + j] == g * stride + j
  {
    BlockEntry(SelectedFrames(stride, frameNum, count), frameNum, g, ClipIndices(stride, frameNum, g), j);
  }

  /** Frame-index gathering at an in-range index reads the original video:
      a selected index below the expected length reads the frame at that
      index, or the last frame when the index is past the original end. */
  lemma FittedRead<T>(all: seq<T>, expected: int, fitted: seq<T>, idx: int)
    requires FitToLength(all, expected) == Ok(fitted) && |all| >= 1
    requires 0 <= idx < expected
    ensures idx < |fitted| && fitted[idx] == all[Min(idx, |all| - 1)]
  {
  }

  // ---------------------------------------------------------------------
  // Kinetics
  // ---------------------------------------------------------------------

  /** `xs[::scale]`: every scale-th item starting from the first, which
      makes ceil(|xs| / scale) items. */
  function Subsample<T>(xs: seq<T>, scale: nat): (r: seq<T>)
    requires scale >= 1
    ensures |r| == (|xs| + scale - 1) / scale
    ensures forall k :: 0 <= k < |r| ==> k * scale < |xs| && r[k] == xs[k * scale]
    decreases |xs|
  {
    if |xs| == 0 then []
    else
      var rest := xs[Min(scale, |xs|)..];
      var tail := Subsample(rest, scale);
      CeilShift(|xs|, scale);
      SubsampleShift(xs, rest, tail, scale);
      [xs[0]] + tail
  }

  lemma SubsampleShift<T>(xs: seq<T>, rest: seq<T>, tail: seq<T>, scale: nat)
    requires scale >= 1 && |xs| > 0 && rest == xs[Min(scale, |xs|)..]
    requires forall k :: 0 <= k < |tail| ==> k * scale < |rest| && tail[k] == rest[k * scale]
    ensures forall k :: 0 <= k < 1 + |tail| ==> k * scale < |xs| && ([xs[0]] + tail)[k] == xs[k * scale]
  {
    forall k | 0 <= k < 1 + |tail|
      ensures k * scale < |xs| && ([xs[0]] + tail)[k] == xs[k * scale]
    {
      if k > 0 {
        assert (k - 1) * scale < |rest| && tail[k - 1] == rest[(k - 1) * scale];
        ShiftedEntry(xs, rest, tail, scale, k);
      }
    }
  }

  /** Entry k - 1 of the rest's subsample is entry k * scale of the whole. */
  lemma ShiftedEntry<T>(xs: seq<T>, rest: seq<T>, tail: seq<T>, scale: nat, k: nat)
    requires scale >= 1 && rest == xs[Min(scale, |xs|)..] && 1 <= k <= |tail|
    requires (k - 1) * scale < |rest| && tail[k - 1] == rest[(k - 1) * scale]
    ensures k * scale < |xs| && tail[k - 1] == xs[k * scale]
  {
    assert |xs| > scale;
    assert (k - 1) * scale + scale == k * scale;
  }

  /** Dropping the first scale items (or all of them) takes one off the
      ceiling quotient. */
  lemma CeilShift(n: nat, scale: nat)
    requires scale >= 1 && n > 0
    ensures 1 + (n - Min(scale, n) + scale - 1) / scale == (n + scale - 1) / scale
  {
    var m := n - Min(scale, n);
    var c := (m + scale - 1) / scale;
    if n <= scale {
      DivUnique(scale - 1, scale, 0);
      CeilDivUnique(n, scale, 1);
    } else {
      CeilBounds(m, scale);
      assert (c - 1) * scale < m <= c * scale;
      assert (c + 1) * scale == c * scale + scale;
      CeilDivUnique(n, scale, c + 1);
    }
  }

  /** ceil(a / s) blocks of s cover a, and one fewer do not. */
  lemma CeilBounds(a: nat, s: nat)
    requires s >= 1
    ensures var c := (a + s - 1) / s; (c - 1) * s < a <= c * s || (a == 0 && c == 0)
  {
    var c := (a + s - 1) / s;
    assert c * s + (a + s - 1) % s == a + s - 1;
    assert (c - 1) * s == c * s - s;
  }

  /** The clamping loop: every index at or past the end becomes the last
      index; the others are untouched. */
  function Clamp(sel: seq<int>, length: int): (r: seq<int>)
    ensures |r| == |sel|
    ensures forall i :: 0 <= i < |sel| && sel[i] < length ==> r[i] == sel[i]
    ensures forall i :: 0 <= i < |sel| && sel[i] >= length ==> r[i] == length - 1
  {
    seq(|sel|, i requires 0 <= i < |sel| => if sel[i] >= length then length - 1 else sel[i])
  }

  /** Clamped non-negative indices of a non-empty list are all in range. */
  lemma ClampInRange(sel: seq<int>, length: int)
    requires length >= 1 && forall i :: 0 <= i < |sel| ==> sel[i] >= 0
    ensures forall i :: 0 <= i < |sel| ==> 0 <= Clamp(sel, length)[i] < length
    ensures forall i :: 0 <= i < |sel| ==> Clamp(sel, length)[i] == Min(sel[i], length - 1)
  {
  }

  /** Clamping twice is clamping once. */
  lemma ClampIdempotent(sel: seq<int>, length: int)
    ensures Clamp(Clamp(sel, length), length) == Clamp(sel, length)
  {
  }

  /** The index selection of `KineticsDataset.__getitem__` on an already
      subsampled frame list: no padding, but indices past the end are
      clamped to the last frame before gathering. An empty selection fails
      in `np.transpose` with a ValueError, as for HAA. */
  function ClampedClips<T>(frames: seq<T>, frameNum: int, count: int): (r: Result<seq<seq<T>>>)
    ensures count == 1 ==> r == Err(ZeroDivisionError)
    ensures count != 1 && (count < 1 || frameNum < 1) ==> r == Err(ValueError)
    ensures r.Ok? ==> count >= 2 && frameNum >= 1 && ClipShape(r.value, frameNum, count)
    ensures count >= 2 && frameNum >= 1 && |frames| >= 1 && StrideOf(|frames|, frameNum, count) >= 0 ==>
              r.Ok? && ClipShape(r.value, frameNum, count) &&
              ClipsRead(r.value, frames, StrideOf(|frames|, frameNum, count), frameNum, count)
  {
    var stride :- Stride(|frames|, frameNum, count);
    var sel := SelectedFrames(stride, frameNum, count);
    var clamped := Clamp(sel, |frames|);
    ClampedGather(frames, frameNum, count, stride, sel, clamped);
    var picked :- Gather(frames, clamped);
    ClampedFacts(frames, frameNum, count, stride, sel, clamped, picked);
    ZeroProduct(Max(count, 0), Max(frameNum, 0));
    if |picked| == 0 then Err(ValueError) else Ok(Clips(picked, frameNum))
  }

  /** With a non-negative stride every clamped index of a non-empty video
      is in range, so gathering succeeds. */
  lemma ClampedGather<T>(frames: seq<T>, frameNum: int, count: int, stride: int, sel: seq<int>, clamped: seq<int>)
    requires sel == SelectedFrames(stride, frameNum, count)
    requires clamped == Clamp(sel, |frames|)
    ensures count >= 2 && frameNum >= 1 && |frames| >= 1 && stride >= 0 ==> Gather(frames, clamped).Ok?
  {
    if count >= 2 && frameNum >= 1 && |frames| >= 1 && stride >= 0 {
      SelectedInBounds(stride, frameNum, count);
      ClampInRange(sel, |frames|);
    }
  }

  lemma ClampedFacts<T>(frames: seq<T>, frameNum: int, count: int, stride: int, sel: seq<int>, clamped: seq<int>, picked: seq<T>)
    requires sel == SelectedFrames(stride, frameNum, count)
    requires clamped == Clamp(sel, |frames|)
    requires Gather(frames, clamped) == Ok(picked)
    ensures count >= 1 && frameNum >= 1 ==> ClipShape(Clips(picked, frameNum), frameNum, count)
    ensures count >= 2 && frameNum >= 1 && |frames| >= 1 && stride >= 0 ==>
              ClipShape(Clips(picked, frameNum), frameNum, count) &&
              ClipsRead(Clips(picked, frameNum), frames, stride, frameNum, count)
  {
    if count >= 1 && frameNum >= 1 {
      assert |picked| == count * frameNum;
      ExactClipShape(picked, frameNum, count);
      if count >= 2 && |frames| >= 1 && stride >= 0 {
        ClampedSelectionReads(frames, frameNum, count, stride, sel, clamped, picked);
      }
    }
  }

  lemma ClampedSelectionReads<T>(frames: seq<T>, frameNum: nat, count: nat, stride: int, sel: seq<int>, clamped: seq<int>, picked: seq<T>)
    requires count >= 1 && frameNum >= 1 && |frames| >= 1 && stride >= 0
    requires sel == SelectedFrames(stride, frameNum, count)
    requires clamped == Clamp(sel, |frames|)
    requires Gather(frames, clamped) == Ok(picked)
    ensures ClipShape(Clips(picked, frameNum), frameNum, count)
    ensures ClipsRead(Clips(picked, frameNum), frames, stride, frameNum, count)
  {
    SelectedInBounds(stride, frameNum, count);
    ClampedReads(frames, sel, clamped, picked);
    ClipsOfSelection(picked, frames, stride, frameNum, count);
  }

  /** Gathering clamped non-negative indices reads the video, indices past
      the end reading its last frame. */
  lemma ClampedReads<T>(frames: seq<T>, sel: seq<int>, clamped: seq<int>, picked: seq<T>)
    requires |frames| >= 1 && forall k :: 0 <= k < |sel| ==> sel[k] >= 0
    requires clamped == Clamp(sel, |frames|)
    requires Gather(frames, clamped) == Ok(picked)
    ensures ReadsClamped(picked, frames, sel)
  {
    ClampInRange(sel, |frames|);
    forall k | 0 <= k < |sel|
      ensures picked[k] == frames[Min(sel[k], |frames| - 1)]
    {
      assert Index(frames, clamped[k]) == Ok(picked[k]);
    }
  }

  /** `KineticsDataset.__getitem__`: the sorted frames subsampled by the
      video's scale, then clamped clips. */
  function KineticsClips<T>(raw: seq<T>, scale: nat, frameNum: int, count: int): (r: Result<seq<seq<T>>>)
    requires scale >= 1
    ensures count == 1 ==> r == Err(ZeroDivisionError)
    ensures count != 1 && (count < 1 || frameNum < 1) ==> r == Err(ValueError)
    ensures r.Ok? ==> count >= 2 && frameNum >= 1 && ClipShape(r.value, frameNum, count)
    ensures var n := (|raw| + scale - 1) / scale;
            count >= 2 && frameNum >= 1 && |raw| >= 1 && StrideOf(n, frameNum, count) >= 0 ==>
              r.Ok? && ClipShape(r.value, frameNum, count) &&
              ScaledReads(r.value, raw, scale, n, StrideOf(n, frameNum, count), frameNum, count)
  {
    var sub := Subsample(raw, scale);
    var r := ClampedClips(sub, frameNum, count);
    if count >= 2 && frameNum >= 1 && |raw| >= 1 && StrideOf(|sub|, frameNum, count) >= 0 then
      KineticsReads(raw, scale, frameNum, count, StrideOf(|sub|, frameNum, count), r.value);
      r
    else
      r
  }

  /** Clip g, position j, of a video subsampled by scale is raw frame
      `min(g * stride + j, n - 1) * scale`, n being the subsampled length. */
  ghost predicate ScaledReads<T>(clips: seq<seq<T>>, raw: seq<T>, scale: nat, n: nat, stride: int, frameNum: int, count: int) {
    && |clips| == count
    && forall g, j :: 0 <= g < count && 0 <= j < frameNum ==> ScaledAt(clips, raw, scale, n, stride, g, j)
  }

  ghost predicate ScaledAt<T>(clips: seq<seq<T>>, raw: seq<T>, scale: nat, n: nat, stride: int, g: nat, j: nat) {
    && g < |clips| && j < |clips[g]| && n >= 1 && 0 <= g * stride + j
    && 0 <= Min(g * stride + j, n - 1) * scale < |raw|
    && clips[g][j] == raw[Min(g * stride + j, n - 1) * scale]
  }

  lemma KineticsReads<T>(raw: seq<T>, scale: nat, frameNum: nat, count: nat, stride: int, clips: seq<seq<T>>)
    requires scale >= 1 && frameNum >= 1 && count >= 1 && |raw| >= 1
    requires ClipShape(clips, frameNum, count) && ClipsRead(clips, Subsample(raw, scale), stride, frameNum, count)
    ensures ScaledReads(clips, raw, scale, (|raw| + scale - 1) / scale, stride, frameNum, count)
  {
    var sub := Subsample(raw, scale);
    var n := (|raw| + scale - 1) / scale;
    forall g, j | 0 <= g < count && 0 <= j < frameNum
      ensures ScaledAt(clips, raw, scale, n, stride, g, j)
    {
      assert ReadAt(clips, sub, stride, g, j);
      var k := Min(g * stride + j, |sub| - 1);
      assert k * scale < |raw| && sub[k] == raw[k * scale];
    }
  }

  /** Padding (HAA) and clamping (Kinetics) pick the same frames: on the
      same frame list with a non-negative stride, both datasets build the
      same clips. */
  lemma PaddingMatchesClamping<T>(all: seq<T>, frameNum: int, count: int)
    requires count >= 2 && frameNum >= 1 && |all| >= 1
    requires StrideOf(|all|, frameNum, count) >= 0
    ensures HaaClips(all, frameNum, count) == ClampedClips(all, frameNum, count)
  {
    var stride := StrideOf(|all|, frameNum, count);
    ClipsReadUnique(HaaClips(all, frameNum, count).value, ClampedClips(all, frameNum, count).value,
                    all, stride, frameNum, count);
  }

  /** Kinetics keeps only videos with at least frame_num frames, and a
      scale of 2 to 4 leaves at least ceil(frame_num / 4) of them; with the
      configured 10 frames per clip and 5 * 3 clips the stride is then never
      negative, so no index wraps around. */
  lemma KineticsStrideNonNegative(n: nat, scale: nat)
    requires n >= Config.FrameNum && 2 <= scale <= 4
    ensures (n + scale - 1) / scale >= 3
    ensures StrideOf((n + scale - 1) / scale, Config.FrameNum, Config.ClipNum * Config.WindowNum) >= 0
  {
    var c := (n + scale - 1) / scale;
    CeilBounds(n, scale);
    assert c * scale >= 10;
    MulLe(scale, 4, c);
    assert scale * c == c * scale;
    StrideSign(c, Config.FrameNum, Config.ClipNum * Config.WindowNum);
  }
}
