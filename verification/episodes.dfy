/** The episode bookkeeping of dataset.py: which classes an episode uses and
    the labels they get, which videos each class contributes, the index
    layout `ClassBalancedSampler` yields and the batch size of the loader.
    Every random choice is a parameter restricted to the values the
    generator can return; listing a folder is a parameter too. */
module Episodes {
  import opened Arith
  import opened Py
  import opened Seqs
  import opened Choice

  /** The `mode` string of a dataset or sampler. */
  datatype Mode = Train | Val | Test

  /** The three class lists read from the split files. */
  datatype Splits = Splits(train: seq<string>, val: seq<string>, test: seq<string>)

  // ---------------------------------------------------------------------
  // Labels
  // ---------------------------------------------------------------------

  /** The label dictionary filled by `labels[names[i]] = base + i` in order:
      a repeated name keeps the label of its last position. */
  function LabelMap(names: seq<string>, base: int): (m: map<string, int>)
    ensures m.Keys == Elems(names)
  {
    if |names| == 0 then map[]
    else
      var n := |names| - 1;
      assert Elems(names) == Elems(names[..n]) + {names[n]} by {
        assert names == names[..n] + [names[n]];
      }
      LabelMap(names[..n], base)[names[n] := base + n]
  }

  /** The dictionary gives every listed name base plus the last position
      it occupies. */
  lemma {:induction false} LabelMapLast(names: seq<string>, base: int)
    ensures LastLabels(names, base, LabelMap(names, base))
  {
    if |names| > 0 {
      var n := |names| - 1;
      LabelMapLast(names[..n], base);
      LabelMapStep(names, base, LabelMap(names[..n], base));
    }
  }

  /** m labels exactly the listed names, each with base plus the last
      position the name occupies. */
  ghost predicate LastLabels(names: seq<string>, base: int, m: map<string, int>) {
    && m.Keys == Elems(names)
    && (forall name :: name in m ==> base <= m[name] < base + |names|)
    && (forall name :: name in m ==> names[m[name] - base] == name)
    && (forall name, i :: name in m && m[name] - base < i < |names| ==> names[i] != name)
  }

  /** Assigning the last name its position extends the labelling of the
      names before it. */
  lemma LabelMapStep(names: seq<string>, base: int, prev: map<string, int>)
    requires |names| > 0
    requires LastLabels(names[..|names| - 1], base, prev)
    ensures LastLabels(names, base, prev[names[|names| - 1] := base + |names| - 1])
  {
    var n := |names| - 1;
    assert names == names[..n] + [names[n]];
  }

  /** Without repeated names, name i gets label base + i: the dictionary is
      the inverse of the class list. */
  lemma LabelMapDistinct(names: seq<string>, base: int)
    ensures Distinct(names) ==> forall i :: 0 <= i < |names| ==>
              names[i] in LabelMap(names, base) && LabelMap(names, base)[names[i]] == base + i
  {
    var m := LabelMap(names, base);
    LabelMapLast(names, base);
    forall i | 0 <= i < |names| && Distinct(names)
      ensures names[i] in m && m[names[i]] == base + i
    {
      assert names[i] in Elems(names);
      var k := m[names[i]] - base;
      assert names[k] == names[i];
    }
  }

  /** `max(0, randint(1, 5) - 3)`: the folder a HAA video is read from, the
      original one for rolls 1 to 3 and stretched copies for 4 and 5. */
  function RandomStretch(roll: int): (folder: nat)
    requires 1 <= roll <= 5
    ensures folder <= 2
    ensures folder == 0 <==> roll <= 3
  {
    Max(0, roll - 3)
  }

  /** Every one of the three folders is read for some roll. */
  lemma StretchReachesEveryFolder(folder: nat) returns (roll: int)
    requires folder <= 2
    ensures 1 <= roll <= 5 && RandomStretch(roll) == folder
  {
    roll := if folder == 0 then 1 else folder + 3;
  }

  // ---------------------------------------------------------------------
  // HAA classes and videos
  // ---------------------------------------------------------------------

  /** The classes `HAADataset` draws from: the train split in train mode,
      the val split otherwise; a mode other than train or test fails the
      assertion of the constructor. */
  function HaaSplit(mode: Mode, splits: Splits): (r: Result<seq<string>>)
    ensures r.Err? <==> mode == Val
    ensures r.Err? ==> r.error == AssertionError
    ensures mode == Train ==> r == Ok(splits.train)
    ensures mode == Test ==> r == Ok(splits.val)
  {
    match mode
    case Train => Ok(splits.train)
    case Val => Err(AssertionError)
    case Test => Ok(splits.val)
  }

  /** `random.sample(all, class_num)`: ValueError for a negative count or
      one larger than the split. */
  function HaaClasses(all: seq<string>, classNum: int, draws: seq<nat>): (r: Result<seq<string>>)
    requires ValidDraws(|all|, draws)
    ensures r.Ok? <==> 0 <= classNum <= |all|
    ensures r.Err? ==> r.error == ValueError
    ensures r.Ok? ==> |r.value| == classNum && multiset(r.value) <= multiset(all)
    ensures r.Ok? && Distinct(all) ==> Distinct(r.value)
  {
    if classNum < 0 then Err(ValueError) else Sample(all, classNum, draws)
  }

  /** With a split without repeats, the i-th chosen HAA class is labelled
      i + 1, so the labels are 1..class_num. */
  lemma HaaLabels(all: seq<string>, classNum: int, draws: seq<nat>)
    requires ValidDraws(|all|, draws) && Distinct(all)
    requires HaaClasses(all, classNum, draws).Ok?
    ensures var names := HaaClasses(all, classNum, draws).value;
            forall i :: 0 <= i < |names| ==> LabelMap(names, 1)[names[i]] == i + 1
  {
    LabelMapDistinct(HaaClasses(all, classNum, draws).value, 1);
  }

  /** A HAA video: the stretch folder (0, 1 or 2) it is read from, its
      name, and its label. */
  datatype Video = Video(folder: nat, name: string, classLabel: int)

  /** The videos of one HAA class: the folder listing shuffled, cut to
      inst_num, and each video given a stretch folder from its own roll. */
  function HaaClassVideos(listing: seq<string>, classLabel: int, instNum: int, draws: seq<nat>, rolls: seq<int>): (r: seq<Video>)
    requires ValidDraws(|listing|, draws)
    requires |rolls| >= |listing| && forall k :: 0 <= k < |rolls| ==> 1 <= rolls[k] <= 5
    ensures instNum >= 0 ==> |r| == Min(instNum, |listing|)
    ensures forall k :: 0 <= k < |r| ==> r[k].classLabel == classLabel && r[k].folder <= 2 && r[k].name in listing
    ensures Distinct(listing) ==> Distinct(r)
  {
    var names := Prefix(Shuffle(listing, draws), instNum);
    PickedNames(listing, draws, instNum);
    var r := seq(|names|, k requires 0 <= k < |names| => Video(RandomStretch(rolls[k]), names[k], classLabel));
    assert forall k :: 0 <= k < |r| ==> r[k].name == names[k];
    r
  }

  /** A shuffled listing cut to inst_num keeps distinct names of the
      listing when the listing has no repeats. */
  lemma PickedNames(listing: seq<string>, draws: seq<nat>, instNum: int)
    requires ValidDraws(|listing|, draws)
    ensures var names := Prefix(Shuffle(listing, draws), instNum);
            && |names| <= |listing|
            && (instNum >= 0 ==> |names| == Min(instNum, |listing|))
            && (forall k :: 0 <= k < |names| ==> names[k] in listing)
            && (Distinct(listing) ==> Distinct(names))
  {
    var s := Shuffle(listing, draws);
    PrefixItems(s, instNum);
    var names := Prefix(s, instNum);
    assert names == s[..|names|];
    forall k | 0 <= k < |names|
      ensures names[k] in listing
    {
      assert names[k] in multiset(listing);
    }
    if Distinct(listing) {
      forall a, b | 0 <= a < b < |names| ensures names[a] != names[b] {
        assert names[a] == s[a] && names[b] == s[b];
      }
    }
  }

  /** The label of each class of the list, read from the dictionary. */
  function ClassLabels(names: seq<string>, base: int): (r: seq<int>)
    ensures |r| == |names|
    ensures forall c :: 0 <= c < |r| ==> base <= r[c] < base + |names|
    ensures Distinct(names) ==> forall c :: 0 <= c < |r| ==> r[c] == base + c
  {
    var m := LabelMap(names, base);
    LabelMapLast(names, base);
    LabelMapDistinct(names, base);
    seq(|names|, c requires 0 <= c < |names| => assert names[c] in Elems(names); m[names[c]])
  }

  /** The random choices behind every HAA class's videos. */
  predicate HaaDrawsOk(listings: seq<seq<string>>, draws: seq<seq<nat>>, rolls: seq<seq<int>>) {
    && |draws| == |listings| && |rolls| == |listings|
    && (forall c :: 0 <= c < |listings| ==> ValidDraws(|listings[c]|, draws[c]))
    && (forall c :: 0 <= c < |listings| ==> |rolls[c]| >= |listings[c]|)
    && (forall c, k :: 0 <= c < |listings| && 0 <= k < |rolls[c]| ==> 1 <= rolls[c][k] <= 5)
  }

  /** The videos of the first upto classes, one class after another. */
  function HaaVideosUpTo(labels: seq<int>, listings: seq<seq<string>>, instNum: int,
                         draws: seq<seq<nat>>, rolls: seq<seq<int>>, upto: nat): (r: seq<Video>)
    requires upto <= |labels| == |listings| && HaaDrawsOk(listings, draws, rolls)
    ensures forall k :: 0 <= k < |r| ==> r[k].classLabel in labels[..upto] && r[k].folder <= 2
  {
    if upto == 0 then []
    else
      var c := upto - 1;
      var init := HaaVideosUpTo(labels, listings, instNum, draws, rolls, c);
      var block := HaaClassVideos(listings[c], labels[c], instNum, draws[c], rolls[c]);
      assert forall k :: 0 <= k < |init| ==> init[k].classLabel in labels[..upto] by {
        assert labels[..c] <= labels[..upto];
      }
      assert labels[c] in labels[..upto];
      init + block
  }

  /** `video_folders` and `video_labels` of `HAADataset`: class by class,
      the chosen videos of the class with the label of its name. Every
      label is one of 1..class_num. */
  function HaaVideos(names: seq<string>, listings: seq<seq<string>>, instNum: int,
                     draws: seq<seq<nat>>, rolls: seq<seq<int>>): (r: seq<Video>)
    requires |listings| == |names| && HaaDrawsOk(listings, draws, rolls)
    ensures forall k :: 0 <= k < |r| ==> 1 <= r[k].classLabel <= |names| && r[k].folder <= 2
  {
    var labels := ClassLabels(names, 1);
    var r := HaaVideosUpTo(labels, listings, instNum, draws, rolls, |names|);
    assert labels[..|names|] == labels;
    r
  }

  /** With distinct class names, the videos of class c form the block that
      follows the videos of the classes before it, all labelled c + 1. */
  lemma HaaVideoBlocks(names: seq<string>, listings: seq<seq<string>>, instNum: int,
                       draws: seq<seq<nat>>, rolls: seq<seq<int>>, c: nat)
    requires |listings| == |names| && HaaDrawsOk(listings, draws, rolls) && Distinct(names)
    requires c < |names|
    ensures var labels := ClassLabels(names, 1);
            var block := HaaClassVideos(listings[c], labels[c], instNum, draws[c], rolls[c]);
            && HaaVideosUpTo(labels, listings, instNum, draws, rolls, c + 1)
               == HaaVideosUpTo(labels, listings, instNum, draws, rolls, c) + block
            && forall k :: 0 <= k < |block| ==> block[k].classLabel == c + 1
  {
  }

  // ---------------------------------------------------------------------
  // Kinetics classes and videos
  // ---------------------------------------------------------------------

  /** The classes `KineticsDataset` draws from, one split per mode. */
  function KineticsSplit(mode: Mode, splits: Splits): seq<string> {
    match mode
    case Train => splits.train
    case Val => splits.val
    case Test => splits.test
  }

  /** The split of the mode shuffled and cut to class_num + 1 classes. */
  function KineticsClasses(mode: Mode, splits: Splits, classNum: int, draws: seq<nat>): (r: seq<string>)
    requires ValidDraws(|KineticsSplit(mode, splits)|, draws)
    ensures classNum >= -1 ==> |r| == Min(classNum + 1, |KineticsSplit(mode, splits)|)
    ensures multiset(r) <= multiset(KineticsSplit(mode, splits))
    ensures Distinct(KineticsSplit(mode, splits)) ==> Distinct(r)
  {
    var all := KineticsSplit(mode, splits);
    var s := Shuffle(all, draws);
    var r := Prefix(s, classNum + 1);
    assert s == r + s[|r|..];
    r
  }

  /** With a split without repeats, the i-th Kinetics class is labelled i,
      so the labels are 0..class_num. */
  lemma KineticsLabels(mode: Mode, splits: Splits, classNum: int, draws: seq<nat>)
    requires ValidDraws(|KineticsSplit(mode, splits)|, draws) && Distinct(KineticsSplit(mode, splits))
    ensures var names := KineticsClasses(mode, splits, classNum, draws);
            forall i :: 0 <= i < |names| ==> LabelMap(names, 0)[names[i]] == i
  {
    LabelMapDistinct(KineticsClasses(mode, splits, classNum, draws), 0);
  }

  /** A video found under a class folder, with the number of frames its
      own folder lists. */
  datatype Candidate = Candidate(path: string, frames: nat)

  /** The candidates with at least frame_num frames, in listing order. */
  function Qualifying(cands: seq<Candidate>, frameNum: int): (r: seq<Candidate>)
    ensures |r| <= |cands|
    ensures forall k :: 0 <= k < |r| ==> r[k].frames >= frameNum
  {
    if |cands| == 0 then []
    else
      var n := |cands| - 1;
      Qualifying(cands[..n], frameNum) + (if cands[n].frames >= frameNum then [cands[n]] else [])
  }

  /** The filter keeps exactly the candidates with enough frames. */
  lemma {:induction false} QualifyingMembers(cands: seq<Candidate>, frameNum: int)
    ensures forall c :: c in Qualifying(cands, frameNum) <==> c in cands && c.frames >= frameNum
  {
    if |cands| > 0 {
      var n := |cands| - 1;
      QualifyingMembers(cands[..n], frameNum);
      assert cands == cands[..n] + [cands[n]];
    }
  }

  /** A Kinetics video: its path and its label. */
  datatype Entry = Entry(path: string, classLabel: int)

  function Paths(cands: seq<Candidate>): (r: seq<string>)
    ensures |r| == |cands| && forall k :: 0 <= k < |r| ==> r[k] == cands[k].path
  {
    seq(|cands|, k requires 0 <= k < |cands| => cands[k].path)
  }

  /** The qualifying candidates shuffled and cut to inst_num. */
  function PickCandidates(q: seq<Candidate>, instNum: int, draws: seq<nat>): (p: seq<Candidate>)
    requires ValidDraws(|q|, draws)
    ensures |p| == (if instNum >= 0 then Min(instNum, |q|) else Max(0, |q| + instNum))
    ensures forall k :: 0 <= k < |p| ==> p[k].path in Paths(q)
  {
    var p := Prefix(Shuffle(q, draws), instNum);
    PrefixItems(Shuffle(q, draws), instNum);
    PickedPaths(q, p);
    p
  }

  /** The videos of one Kinetics class: the qualifying candidates shuffled
      and cut to inst_num; unzipping an empty list raises ValueError, which
      happens when no candidate qualifies or inst_num is 0. */
  function KineticsClassVideos(cands: seq<Candidate>, classLabel: int, frameNum: int, instNum: int, draws: seq<nat>): (r: Result<seq<Entry>>)
    requires ValidDraws(|Qualifying(cands, frameNum)|, draws)
    ensures r.Ok? <==> instNum != 0 && |Qualifying(cands, frameNum)| + Min(instNum, 0) >= 1
    ensures r.Err? ==> r.error == ValueError
    ensures r.Ok? && instNum >= 0 ==> |r.value| == Min(instNum, |Qualifying(cands, frameNum)|)
    ensures r.Ok? ==> forall k :: 0 <= k < |r.value| ==>
              r.value[k].classLabel == classLabel && r.value[k].path in Paths(Qualifying(cands, frameNum))
  {
    var picked := PickCandidates(Qualifying(cands, frameNum), instNum, draws);
    if |picked| == 0 then Err(ValueError)
    else Ok(seq(|picked|, k requires 0 <= k < |picked| => Entry(picked[k].path, classLabel)))
  }

  lemma PickedPaths(q: seq<Candidate>, picked: seq<Candidate>)
    requires multiset(picked) <= multiset(q)
    ensures forall k :: 0 <= k < |picked| ==> picked[k].path in Paths(q)
  {
    forall k | 0 <= k < |picked|
      ensures picked[k].path in Paths(q)
    {
      assert picked[k] in multiset(q);
      var i :| 0 <= i < |q| && q[i] == picked[k];
      assert Paths(q)[i] == picked[k].path;
    }
  }

  /** Every kept path belongs to a candidate with at least frame_num frames. */
  lemma QualifyingPaths(cands: seq<Candidate>, frameNum: int, path: string)
    requires path in Paths(Qualifying(cands, frameNum))
    ensures exists c :: c in cands && c.frames >= frameNum && c.path == path
  {
    var q := Qualifying(cands, frameNum);
    var i :| 0 <= i < |q| && Paths(q)[i] == path;
    QualifyingMembers(cands, frameNum);
    assert q[i] in q;
  }

  /** The random choices behind every Kinetics class's videos. */
  predicate KineticsDrawsOk(cands: seq<seq<Candidate>>, frameNum: int, draws: seq<seq<nat>>) {
    |draws| == |cands| && forall c :: 0 <= c < |cands| ==> ValidDraws(|Qualifying(cands[c], frameNum)|, draws[c])
  }

  /** Whether a Kinetics class has a video to unzip: some candidate
      qualifies and the cut to inst_num leaves at least one. */
  predicate ClassUsable(cands: seq<Candidate>, frameNum: int, instNum: int) {
    instNum != 0 && |Qualifying(cands, frameNum)| + Min(instNum, 0) >= 1
  }

  /** The per-class outcome of the loop over `self.classes`, class c
      labelled labels[c]. */
  function ClassBlocks(labels: seq<int>, cands: seq<seq<Candidate>>, frameNum: int, instNum: int,
                       draws: seq<seq<nat>>): (bs: seq<Result<seq<Entry>>>)
    requires |labels| == |cands| && KineticsDrawsOk(cands, frameNum, draws)
    ensures |bs| == |cands|
    ensures forall c :: 0 <= c < |bs| ==> (bs[c].Ok? <==> ClassUsable(cands[c], frameNum, instNum))
    ensures forall c :: 0 <= c < |bs| && bs[c].Err? ==> bs[c].error == ValueError
    ensures forall c :: 0 <= c < |bs| && bs[c].Ok? ==> LabelsAmong(bs[c].value, labels)
  {
    seq(|cands|, c requires 0 <= c < |cands| =>
      var block := KineticsClassVideos(cands[c], labels[c], frameNum, instNum, draws[c]);
      BlockLabels(block, labels, c);
      block)
  }

  lemma BlockLabels(block: Result<seq<Entry>>, labels: seq<int>, c: nat)
    requires c < |labels|
    requires block.Ok? ==> forall k :: 0 <= k < |block.value| ==> block.value[k].classLabel == labels[c]
    ensures block.Ok? ==> LabelsAmong(block.value, labels)
  {
  }

  /** The outcomes of the first upto classes, one class after another:
      the first failing class ends the loop with its error. */
  function Collect<T>(bs: seq<Result<seq<T>>>, upto: nat): (r: Result<seq<T>>)
    requires upto <= |bs|
    ensures r.Err? ==> exists c :: 0 <= c < upto && bs[c] == Err(r.error)
  {
    if upto == 0 then Ok([])
    else
      var init := Collect(bs, upto - 1);
      if init.Err? then init
      else if bs[upto - 1].Err? then Err(bs[upto - 1].error)
      else Ok(init.value + bs[upto - 1].value)
  }

  /** The loop succeeds exactly when every class succeeds. */
  lemma CollectOk<T>(bs: seq<Result<seq<T>>>, upto: nat)
    requires upto <= |bs|
    ensures Collect(bs, upto).Ok? <==> forall c :: 0 <= c < upto ==> bs[c].Ok?
  {
    if Collect(bs, upto).Ok? {
      forall c | 0 <= c < upto
        ensures bs[c].Ok?
      {
        OkMeansEveryOk(bs, upto, c);
      }
    } else if forall c :: 0 <= c < upto ==> bs[c].Ok? {
      EveryOkMeansOk(bs, upto);
    }
  }

  lemma {:induction false} OkMeansEveryOk<T>(bs: seq<Result<seq<T>>>, upto: nat, c: nat)
    requires c < upto <= |bs| && Collect(bs, upto).Ok?
    ensures bs[c].Ok?
  {
    if c < upto - 1 {
      OkMeansEveryOk(bs, upto - 1, c);
    }
  }

  lemma {:induction false} EveryOkMeansOk<T>(bs: seq<Result<seq<T>>>, upto: nat)
    requires upto <= |bs| && forall c :: 0 <= c < upto ==> bs[c].Ok?
    ensures Collect(bs, upto).Ok?
  {
    if upto > 0 {
      EveryOkMeansOk(bs, upto - 1);
    }
  }

  /** Every entry carries one of the labels. */
  predicate LabelsAmong(entries: seq<Entry>, labels: seq<int>) {
    forall k :: 0 <= k < |entries| ==> entries[k].classLabel in labels
  }

  /** When every class's entries carry labels from the list, so does the
      concatenation. */
  lemma {:induction false} CollectLabels(bs: seq<Result<seq<Entry>>>, upto: nat, labels: seq<int>)
    requires upto <= |bs|
    requires forall c :: 0 <= c < upto && bs[c].Ok? ==> LabelsAmong(bs[c].value, labels)
    ensures Collect(bs, upto).Ok? ==> LabelsAmong(Collect(bs, upto).value, labels)
  {
    if upto > 0 && Collect(bs, upto).Ok? {
      CollectLabels(bs, upto - 1, labels);
      var init := Collect(bs, upto - 1).value;
      var block := bs[upto - 1].value;
      assert Collect(bs, upto).value == init + block;
      LabelsOfConcat(init, block, labels);
    }
  }

  lemma LabelsOfConcat(init: seq<Entry>, block: seq<Entry>, labels: seq<int>)
    requires LabelsAmong(init, labels) && LabelsAmong(block, labels)
    ensures LabelsAmong(init + block, labels)
  {
    forall k | 0 <= k < |init + block|
      ensures (init + block)[k].classLabel in labels
    {
      if k >= |init| {
        assert (init + block)[k] == block[k - |init|];
      }
    }
  }

  /** `video_folders` and `video_labels` of `KineticsDataset`: the list
      exists exactly when every class has a usable video, the failure is
      ValueError, and every label is below the number of classes, i.e. in
      0..class_num for the class_num + 1 classes `KineticsClasses` keeps. */
  function KineticsVideos(names: seq<string>, cands: seq<seq<Candidate>>, frameNum: int, instNum: int,
                          draws: seq<seq<nat>>): (r: Result<seq<Entry>>)
    requires |cands| == |names| && KineticsDrawsOk(cands, frameNum, draws)
    ensures r.Ok? <==> forall c :: 0 <= c < |names| ==> ClassUsable(cands[c], frameNum, instNum)
    ensures r.Err? ==> r.error == ValueError
    ensures r.Ok? ==> forall k :: 0 <= k < |r.value| ==> 0 <= r.value[k].classLabel < |names|
  {
    var labels := ClassLabels(names, 0);
    var bs := ClassBlocks(labels, cands, frameNum, instNum, draws);
    CollectOk(bs, |names|);
    CollectLabels(bs, |names|, labels);
    Collect(bs, |names|)
  }

  // ---------------------------------------------------------------------
  // ClassBalancedSampler and the loader
  // ---------------------------------------------------------------------

  /** How many of inst_num indices `sublist[:num_per_class]` keeps. */
  function Kept(instNum: nat, npc: int): (m: nat)
    ensures m <= instNum
    ensures npc >= 0 ==> m == Min(npc, instNum) && m <= npc
  {
    if npc >= 0 then Min(npc, instNum) else Max(0, instNum + npc)
  }

  /** x is an index of class j: `j * inst_num <= x < (j + 1) * inst_num`. */
  predicate InClass(x: int, j: int, instNum: nat) {
    j * instNum <= x < j * instNum + instNum
  }

  /** An index belongs to at most one class. */
  lemma ClassUnique(x: int, i: int, j: int, instNum: nat)
    requires InClass(x, i, instNum) && i != j
    ensures !InClass(x, j, instNum)
  {
    if i < j {
      BlockBefore(i, j, instNum);
    } else {
      BlockBefore(j, i, instNum);
    }
  }

  /** An index belongs to one class only. */
  lemma ClassDetermined(x: int, i: int, j: int, instNum: nat)
    requires InClass(x, i, instNum) && InClass(x, j, instNum)
    ensures i == j
  {
    DivUnique(x, instNum, i);
    DivUnique(x, instNum, j);
  }

  /** The classes 1..class_num cover `[inst_num, (class_num + 1) * inst_num)`. */
  lemma ClassBounds(x: int, j: int, classNum: int, instNum: nat)
    requires 1 <= j <= classNum && InClass(x, j, instNum)
    ensures instNum <= x < (classNum + 1) * instNum
  {
    MulLe(1, j, instNum);
    BlockBefore(j, classNum + 1, instNum);
  }

  /** Block j of the sampler: the indices of class j shuffled and cut to
      num_per_class. */
  function SamplerBlock(j: nat, instNum: nat, npc: int, draws: seq<nat>): (r: seq<int>)
    requires ValidDraws(instNum, draws)
    ensures |r| == Kept(instNum, npc)
    ensures Distinct(r)
    ensures forall k :: 0 <= k < |r| ==> InClass(r[k], j, instNum)
  {
    var lo := j * instNum;
    CutShuffledRange(lo, instNum, npc, draws);
    Prefix(Shuffle(Range(lo, instNum), draws), npc)
  }

  /** A shuffled range cut to npc keeps Kept distinct items of the range. */
  lemma CutShuffledRange(lo: int, n: nat, npc: int, draws: seq<nat>)
    requires ValidDraws(n, draws)
    ensures var r := Prefix(Shuffle(Range(lo, n), draws), npc);
            && |r| == Kept(n, npc)
            && Distinct(r)
            && forall k :: 0 <= k < |r| ==> lo <= r[k] < lo + n
  {
    var all := Range(lo, n);
    assert Distinct(all);
    var s := Shuffle(all, draws);
    PrefixItems(s, npc);
    var r := Prefix(s, npc);
    assert r == s[..|r|];
    assert Distinct(r) by {
      forall a, b | 0 <= a < b < |r| ensures r[a] != r[b] {
        assert r[a] == s[a] && r[b] == s[b];
      }
    }
    forall k | 0 <= k < |r|
      ensures lo <= r[k] < lo + n
    {
      assert r[k] in multiset(all);
    }
  }

  /** One shuffle per class block, class_num + 1 of them. */
  predicate SamplerDrawsOk(classNum: int, instNum: int, draws: seq<seq<nat>>) {
    |draws| == Max(classNum + 1, 0) && forall j :: 0 <= j < |draws| ==> ValidDraws(Max(instNum, 0), draws[j])
  }

  /** The blocks of classes 1..class_num: `batch[1:]` drops block 0. */
  function KeptBlocks(classNum: int, instNum: int, npc: int, draws: seq<seq<nat>>): (bs: seq<seq<int>>)
    requires SamplerDrawsOk(classNum, instNum, draws)
    ensures |bs| == Max(classNum, 0)
    ensures forall b :: 0 <= b < |bs| ==> |bs[b]| == Kept(Max(instNum, 0), npc) && Distinct(bs[b])
    ensures forall b, x :: 0 <= b < |bs| && x in bs[b] ==> InClass(x, b + 1, Max(instNum, 0))
  {
    seq(Max(classNum, 0), b requires 0 <= b < Max(classNum, 0) => KeptBlock(classNum, instNum, npc, draws, b))
  }

  /** Block b + 1 of the sampler, the b-th block kept. */
  function KeptBlock(classNum: int, instNum: int, npc: int, draws: seq<seq<nat>>, b: nat): (block: seq<int>)
    requires SamplerDrawsOk(classNum, instNum, draws) && b < Max(classNum, 0)
    ensures |block| == Kept(Max(instNum, 0), npc) && Distinct(block)
    ensures forall x :: x in block ==> InClass(x, b + 1, Max(instNum, 0))
  {
    assert b + 1 < |draws|;
    var block := SamplerBlock(b + 1, Max(instNum, 0), npc, draws[b + 1]);
    BlockInClass(block, b + 1, Max(instNum, 0));
    block
  }

  lemma BlockInClass(block: seq<int>, j: int, inst: nat)
    requires forall k :: 0 <= k < |block| ==> InClass(block[k], j, inst)
    ensures forall x :: x in block ==> InClass(x, j, inst)
  {
  }

  /** Blocks of different classes share no index. */
  lemma KeptBlocksDisjoint(classNum: int, instNum: int, npc: int, draws: seq<seq<nat>>)
    requires SamplerDrawsOk(classNum, instNum, draws)
    ensures var bs := KeptBlocks(classNum, instNum, npc, draws);
            forall i, j, x :: 0 <= i < j < |bs| && x in bs[i] ==> x !in bs[j]
  {
    BlocksDisjoint(KeptBlocks(classNum, instNum, npc, draws), Max(instNum, 0));
  }

  /** Blocks whose members lie in distinct classes share no index. */
  lemma BlocksDisjoint(bs: seq<seq<int>>, instNum: nat)
    requires forall b, y :: 0 <= b < |bs| && y in bs[b] ==> InClass(y, b + 1, instNum)
    ensures forall i, j, x :: 0 <= i < j < |bs| && x in bs[i] ==> x !in bs[j]
  {
    forall i, j, x | 0 <= i < j < |bs| && x in bs[i]
      ensures x !in bs[j]
    {
      ClassUnique(x, i + 1, j + 1, instNum);
    }
  }

  /** The kept blocks, flattened, hold distinct indices of classes
      1..class_num. */
  lemma KeptBlocksFacts(classNum: int, instNum: int, npc: int, draws: seq<seq<nat>>)
    requires SamplerDrawsOk(classNum, instNum, draws)
    ensures var u := Flatten(KeptBlocks(classNum, instNum, npc, draws));
            && Distinct(u)
            && forall x :: x in u ==> instNum <= x < (classNum + 1) * instNum
  {
    var bs := KeptBlocks(classNum, instNum, npc, draws);
    KeptBlocksDisjoint(classNum, instNum, npc, draws);
    FlattenDistinct(bs);
    forall x | x in Flatten(bs)
      ensures instNum <= x < (classNum + 1) * instNum
    {
      BlocksBounds(bs, classNum, Max(instNum, 0), x);
    }
  }

  /** An index taken from block b of the kept blocks lies in class b + 1. */
  lemma BlocksBounds(bs: seq<seq<int>>, classNum: int, instNum: nat, x: int)
    requires |bs| == Max(classNum, 0)
    requires forall b, y :: 0 <= b < |bs| && y in bs[b] ==> InClass(y, b + 1, instNum)
    requires x in Flatten(bs)
    ensures instNum <= x < (classNum + 1) * instNum
  {
    var b := FlattenPart(bs, x);
    ClassBounds(x, b + 1, classNum, instNum);
  }

  /** `ClassBalancedSampler.__iter__`: for every class 1..class_num,
      min(num_per_class, inst_num) distinct indices of that class, block
      after block, optionally shuffled as a whole. Block 0 is never used. */
  function SamplerBatch(classNum: int, instNum: int, npc: int, shuffle: bool,
                        draws: seq<seq<nat>>, finalDraws: seq<nat>): (r: seq<int>)
    requires SamplerDrawsOk(classNum, instNum, draws)
    requires shuffle ==> ValidDraws(Max(classNum, 0) * Kept(Max(instNum, 0), npc), finalDraws)
    ensures |r| == Max(classNum, 0) * Kept(Max(instNum, 0), npc)
    ensures Distinct(r)
    ensures forall k :: 0 <= k < |r| ==> instNum <= r[k] < (classNum + 1) * instNum
    ensures multiset(r) == multiset(Flatten(KeptBlocks(classNum, instNum, npc, draws)))
    ensures !shuffle ==> forall b :: 0 <= b < classNum ==>
              IsBlock(r, Kept(Max(instNum, 0), npc), b, KeptBlocks(classNum, instNum, npc, draws)[b])
  {
    var bs := KeptBlocks(classNum, instNum, npc, draws);
    var u := Flatten(bs);
    KeptBlocksFacts(classNum, instNum, npc, draws);
    FlattenBlocks(bs, Kept(Max(instNum, 0), npc));
    var r := if shuffle then Shuffle(u, finalDraws) else u;
    ShuffledInRange(u, r, instNum, (classNum + 1) * instNum);
    r
  }

  lemma ShuffledInRange(u: seq<int>, r: seq<int>, lo: int, hi: int)
    requires multiset(r) == multiset(u)
    requires forall x :: x in u ==> lo <= x < hi
    ensures forall k :: 0 <= k < |r| ==> lo <= r[k] < hi
  {
    forall k | 0 <= k < |r|
      ensures lo <= r[k] < hi
    {
      assert r[k] in multiset(r);
      assert r[k] in u;
    }
  }

  /** Without the final shuffle, the classes come in ascending order:
      an earlier position never holds an index of a later class. */
  lemma SamplerAscending(classNum: int, instNum: int, npc: int, draws: seq<seq<nat>>, k1: nat, k2: nat)
    requires SamplerDrawsOk(classNum, instNum, draws)
    requires k1 <= k2 < Max(classNum, 0) * Kept(Max(instNum, 0), npc)
    ensures instNum >= 1 && k2 < |SamplerBatch(classNum, instNum, npc, false, draws, [])|
    ensures SamplerBatch(classNum, instNum, npc, false, draws, [])[k1] / instNum
            <= SamplerBatch(classNum, instNum, npc, false, draws, [])[k2] / instNum
  {
    var r := SamplerBatch(classNum, instNum, npc, false, draws, []);
    var m := Kept(Max(instNum, 0), npc);
    var bs := KeptBlocks(classNum, instNum, npc, draws);
    PositiveFactors(|bs|, m);
    assert m <= Max(instNum, 0);
    AscendingBlocks(r, bs, m, Max(instNum, 0), k1, k2);
  }

  /** Blocks of size m whose block b holds indices of class b + 1: position
      k holds an index of class k / m + 1, which never decreases with k. */
  lemma AscendingBlocks(r: seq<int>, bs: seq<seq<int>>, m: nat, inst: nat, k1: nat, k2: nat)
    requires m >= 1 && inst >= 1
    requires forall b :: 0 <= b < |bs| ==> IsBlock(r, m, b, bs[b])
    requires forall b, x :: 0 <= b < |bs| && x in bs[b] ==> InClass(x, b + 1, inst)
    requires k1 <= k2 < |bs| * m
    ensures k2 < |r|
    ensures r[k1] / inst <= r[k2] / inst
  {
    EntryClass(r, bs, m, inst, k1);
    EntryClass(r, bs, m, inst, k2);
    DivUnique(r[k1], inst, k1 / m + 1);
    DivUnique(r[k2], inst, k2 / m + 1);
    DivMonotone(k1, k2, m);
  }

  /** Position k of such blocks holds an index of class k / m + 1. */
  lemma EntryClass(r: seq<int>, bs: seq<seq<int>>, m: nat, inst: nat, k: nat)
    requires m >= 1
    requires forall b :: 0 <= b < |bs| ==> IsBlock(r, m, b, bs[b])
    requires forall b, x :: 0 <= b < |bs| && x in bs[b] ==> InClass(x, b + 1, inst)
    requires k < |bs| * m
    ensures k < |r| && InClass(r[k], k / m + 1, inst)
  {
    var i, j := BlockPosition(k, m, |bs|);
    BlockEntry(r, m, i, bs[i], j);
    assert r[k] in bs[i];
  }

  /** Class j, 1 <= j <= class_num, contributes exactly its kept indices
      to the batch, and there are min(num_per_class, inst_num) of them: at
      most num_per_class indices come from any class. */
  lemma SamplerBlockMembers(classNum: int, instNum: int, npc: int, shuffle: bool,
                            draws: seq<seq<nat>>, finalDraws: seq<nat>, j: nat)
    requires SamplerDrawsOk(classNum, instNum, draws)
    requires shuffle ==> ValidDraws(Max(classNum, 0) * Kept(Max(instNum, 0), npc), finalDraws)
    requires 1 <= j <= classNum
    ensures forall x :: x in SamplerBatch(classNum, instNum, npc, shuffle, draws, finalDraws) && InClass(x, j, Max(instNum, 0))
                        <==> x in KeptBlocks(classNum, instNum, npc, draws)[j - 1]
    ensures |KeptBlocks(classNum, instNum, npc, draws)[j - 1]| == Kept(Max(instNum, 0), npc)
  {
    var r := SamplerBatch(classNum, instNum, npc, shuffle, draws, finalDraws);
    var bs := KeptBlocks(classNum, instNum, npc, draws);
    PermutedBlockMembers(r, bs, Max(instNum, 0), j);
  }

  /** A permutation of the flattened blocks, where block b holds indices of
      class b + 1, holds of class j exactly the entries of block j - 1. */
  lemma PermutedBlockMembers(r: seq<int>, bs: seq<seq<int>>, inst: nat, j: nat)
    requires multiset(r) == multiset(Flatten(bs))
    requires forall b, x :: 0 <= b < |bs| && x in bs[b] ==> InClass(x, b + 1, inst)
    requires 1 <= j <= |bs|
    ensures forall x :: x in r && InClass(x, j, inst) ==> x in bs[j - 1]
    ensures forall x :: x in bs[j - 1] ==> x in r
  {
    var u := Flatten(bs);
    FlattenMembers(bs);
    forall x | x in r && InClass(x, j, inst)
      ensures x in bs[j - 1]
    {
      assert x in multiset(r);
      assert x in u;
      var b :| 0 <= b < |bs| && x in bs[b];
      ClassDetermined(x, b + 1, j, inst);
    }
    forall x | x in bs[j - 1]
      ensures x in r
    {
      assert x in u;
      assert x in multiset(u);
    }
  }

  /** The batch size `get_data_loader` passes to the loader: room for
      class_num + 1 classes when loading training data that is not the
      support set, for class_num classes otherwise. */
  function BatchSize(mode: Mode, support: bool, npc: int, classNum: int): (b: int)
    ensures mode == Train && !support ==> b == npc * classNum + npc
    ensures !(mode == Train && !support) ==> b == npc * classNum
  {
    if mode == Train && !support then npc * (classNum + 1) else npc * classNum
  }

  /** The single batch the loader draws holds the whole episode the
      sampler yields. Outside the training-query case it is exactly full
      when num_per_class <= inst_num; in that case the batch has room for
      one more class, which the sampler never fills because it drops
      block 0. */
  lemma OneBatchHoldsEpisode(mode: Mode, support: bool, classNum: nat, instNum: nat, npc: nat, shuffle: bool,
                             draws: seq<seq<nat>>, finalDraws: seq<nat>)
    requires SamplerDrawsOk(classNum, instNum, draws)
    requires shuffle ==> ValidDraws(classNum * Kept(instNum, npc), finalDraws)
    ensures |SamplerBatch(classNum, instNum, npc, shuffle, draws, finalDraws)| <= BatchSize(mode, support, npc, classNum)
    ensures !(mode == Train && !support) && npc <= instNum ==>
              |SamplerBatch(classNum, instNum, npc, shuffle, draws, finalDraws)| == BatchSize(mode, support, npc, classNum)
    ensures mode == Train && !support ==>
              BatchSize(mode, support, npc, classNum) - |SamplerBatch(classNum, instNum, npc, shuffle, draws, finalDraws)| >= npc
  {
    MulLe(Kept(instNum, npc), npc, classNum);
    assert classNum * Kept(instNum, npc) == Kept(instNum, npc) * classNum;
    assert npc * classNum == classNum * npc;
  }
}
